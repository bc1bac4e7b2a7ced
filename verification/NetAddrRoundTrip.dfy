/** Printing a network address and parsing the text again gives the address back. */
module NetAddrRoundTrip {
  import opened Bytes
  import opened Text
  import opened Wrappers
  import opened AddrText
  import opened NetAddr
  import opened NetAddrParser

  /** No run of more than five digits anywhere. */
  ghost predicate ShortRuns(s: string) {
    forall i {:trigger s[i..]} :: 0 <= i <= |s| ==> DigitRun(s[i..]) <= 5
  }

  lemma ShortRunsFit(s: string, pton: string -> Option<octets>)
    requires ShortRuns(s)
    ensures NumbersFit(s, pton)
  {
    hide ShortRuns, NumberFits, ReadDotted, ReadOctet;
    if s != [] && s[0] == '[' {
      var n := HostLength(s[1..], 127);
      if n + 1 < |s| {
        SuffixShort(s, n + 2);
        ShortPortFits(s[n + 2..]);
      }
    } else {
      ShortQuadFits(s);
    }
  }

  lemma SuffixShort(s: string, k: nat)
    requires ShortRuns(s) && k <= |s|
    ensures ShortRuns(s[k..])
  {
    var t := s[k..];
    forall i {:trigger t[i..]} | 0 <= i <= |t|
      ensures DigitRun(t[i..]) <= 5
    {
      assert t[i..] == s[k + i..];
    }
  }

  lemma ShortNumberFits(s: string)
    requires ShortRuns(s)
    ensures NumberFits(s)
  {
    assert s[0..] == s;
    ShortRunFits(s);
  }

  lemma ShortPortFits(s: string)
    requires ShortRuns(s)
    ensures PortFits(s)
  {
    hide ShortRuns, NumberFits;
    if s != [] {
      SuffixShort(s, 1);
      ShortNumberFits(s[1..]);
    }
  }

  lemma OctetShort(s: string)
    requires ShortRuns(s)
    ensures NumberFits(s)
    ensures ReadOctet(s).Some? ==> ShortRuns(ReadOctet(s).value.rest)
    ensures ReadDotted(s).Some? ==> ShortRuns(ReadDotted(s).value.rest)
  {
    hide ShortRuns, NumberFits, Value;
    ShortNumberFits(s);
    if ReadOctet(s).Some? {
      var n := DigitRun(s);
      SuffixShort(s, n);
      if ReadDotted(s).Some? {
        SuffixShort(s[n..], 1);
      }
    }
  }

  lemma ShortQuadFits(s: string)
    requires ShortRuns(s)
    ensures QuadFits(s)
  {
    hide ShortRuns, NumberFits, ReadDotted, ReadOctet, PortFits;
    OctetShort(s);
    if ReadDotted(s).Some? {
      var s1 := ReadDotted(s).value.rest;
      OctetShort(s1);
      if ReadDotted(s1).Some? {
        var s2 := ReadDotted(s1).value.rest;
        OctetShort(s2);
        if ReadDotted(s2).Some? {
          var s3 := ReadDotted(s2).value.rest;
          OctetShort(s3);
          if ReadOctet(s3).Some? {
            ShortPortFits(ReadOctet(s3).value.rest);
          }
        }
      }
    }
  }

  lemma ShortRunFits(t: string)
    requires DigitRun(t) <= 5
    ensures Value(t[..DigitRun(t)], 10) < INT_RANGE
  {
    hide Value;
    ValueBelow(t[..DigitRun(t)], 10);
    assert Power(10, 1) == Power(10, 0) * 10 == 10;
    assert Power(10, 2) == Power(10, 1) * 10;
    assert Power(10, 3) == Power(10, 2) * 10;
    assert Power(10, 4) == Power(10, 3) * 10;
    assert Power(10, 5) == Power(10, 4) * 10;
  }

  /** A short field in front of something that is not a digit. */
  lemma ShortField(f: string, rest: string)
    requires |f| <= 5 && !StartsWithDigit(rest) && ShortRuns(rest)
    ensures ShortRuns(f + rest)
  {
    var s := f + rest;
    forall i {:trigger s[i..]} | 0 <= i <= |s|
      ensures DigitRun(s[i..]) <= 5
    {
      if i >= |f| {
        assert s[i..] == rest[i - |f|..];
      } else {
        assert s[i..] == f[i..] + rest;
        RunEndsBefore(f[i..], rest);
      }
    }
  }

  lemma RunEndsBefore(f: string, rest: string)
    requires !StartsWithDigit(rest)
    ensures DigitRun(f + rest) <= |f|
  {
    hide DigitRun;
    if DigitRun(f + rest) > |f| {
      RunDigit(f + rest, |f|);
    }
  }

  lemma {:induction false} ShortJoin(fields: seq<string>, tail: string)
    requires (forall i :: 0 <= i < |fields| ==> |fields[i]| <= 4) && !StartsWithDigit(tail) && ShortRuns(tail)
    ensures ShortRuns(Join(fields) + tail)
    decreases |fields|
  {
    hide ShortRuns, DigitRun;
    if fields == [] {
      assert Join(fields) + tail == tail;
    } else if |fields| == 1 {
      ShortField(fields[0], tail);
    } else {
      ShortJoin(fields[1..], tail);
      var rest := Join(fields[1..]) + tail;
      NotDigitFirst(':', rest);
      assert [':'] + rest == ":" + rest;
      ShortField(fields[0], ":" + rest);
      assert Join(fields) + tail == fields[0] + (":" + rest);
    }
  }

  lemma NoRuns()
    ensures ShortRuns([])
  {
  }

  /** A single character that is not a digit in front. */
  lemma NotDigitFirst(c: char, rest: string)
    requires ShortRuns(rest) && !IsNum(c)
    ensures ShortRuns([c] + rest) && !StartsWithDigit([c] + rest)
  {
    var s := [c] + rest;
    forall i {:trigger s[i..]} | 0 <= i <= |s|
      ensures DigitRun(s[i..]) <= 5
    {
      if i > 0 {
        assert s[i..] == rest[i - 1..];
      }
    }
  }

  /** A number in front of something that is neither digit nor terminator. */
  lemma ShortNumber(v: nat, rest: string)
    requires v < 0x1_0000 && !StartsWithDigit(rest) && ShortRuns(rest) && '\0' !in rest
    ensures ShortRuns(Decimal(v) + rest) && '\0' !in Decimal(v) + rest
  {
    hide ShortRuns;
    ValueOfDigits(v, 10);
    DecimalLengths(v);
    ShortField(Decimal(v), rest);
    var f := Decimal(v);
    assert forall i :: 0 <= i < |f| ==> DigitOf(f[i]) >= 0;
  }

  lemma DottedNumber(v: nat, rest: string)
    requires v < 0x1_0000 && ShortRuns(rest) && '\0' !in rest
    ensures ShortRuns(Decimal(v) + ("." + rest)) && '\0' !in Decimal(v) + ("." + rest)
  {
    hide ShortRuns, Decimal;
    assert ['.'] + rest == "." + rest;
    NotDigitFirst('.', rest);
    ShortNumber(v, "." + rest);
  }

  lemma PortTextReadable(port: int)
    requires port < 0x1_0000
    ensures ShortRuns(PortText(port)) && '\0' !in PortText(port) && !StartsWithDigit(PortText(port))
  {
    hide ShortRuns, Decimal;
    NoRuns();
    if port >= 0 {
      ShortNumber(port, []);
      assert Decimal(port) + [] == Decimal(port);
      NotDigitFirst(':', Decimal(port));
      assert [':'] + Decimal(port) == ":" + Decimal(port);
    }
  }

  lemma V4TextReadable(ip: seq<byte>, port: int, pton: string -> Option<octets>)
    requires |ip| >= 4 && port < 0x1_0000
    ensures NumbersFit(V4Text(ip, port), pton) && '\0' !in V4Text(ip, port)
  {
    hide ShortRuns, Decimal, NumbersFit, PortText;
    PortTextReadable(port);
    var tail := PortText(port);
    ShortNumber(ip[3], tail);
    var s3 := Decimal(ip[3]) + tail;
    DottedNumber(ip[2], s3);
    var s2 := Decimal(ip[2]) + ("." + s3);
    DottedNumber(ip[1], s2);
    var s1 := Decimal(ip[1]) + ("." + s2);
    DottedNumber(ip[0], s1);
    assert V4Text(ip, port) == Decimal(ip[0]) + ("." + s1);
    ShortRunsFit(V4Text(ip, port), pton);
  }

  lemma ShortCanonical(w: seq<word>, t: string, tail: string)
    requires |w| == 8 && Canonical(w, t) && !StartsWithDigit(tail) && ShortRuns(tail)
    ensures ShortRuns(t + tail)
  {
    hide ShortRuns, Join, Groups;
    var start, length :| RunToShorten(w, start, length) && t == Shortened(w, start, length);
    if length == 0 {
      ReadGroupsBack(w);
      ShortJoin(Groups(w), tail);
    } else {
      var left, right := w[..start], w[start + length..];
      ReadGroupsBack(left);
      ReadGroupsBack(right);
      ShortJoin(Groups(right), tail);
      var rest := Join(Groups(right)) + tail;
      NotDigitFirst(':', rest);
      NotDigitFirst(':', [':'] + rest);
      ShortJoin(Groups(left), [':'] + ([':'] + rest));
      assert t + tail == Join(Groups(left)) + ([':'] + ([':'] + rest));
    }
  }

  lemma V6TextReadable(w: seq<word>, t: string, port: int, pton: string -> Option<octets>)
    requires |w| == 8 && Canonical(w, t) && port < 0x1_0000
    ensures NumbersFit("[" + t + "]" + PortText(port), pton) && '\0' !in "[" + t + "]" + PortText(port)
  {
    hide ShortRuns, Canonical, NumbersFit, PortText;
    PortTextReadable(port);
    NotDigitFirst(']', PortText(port));
    var tail := [']'] + PortText(port);
    ShortCanonical(w, t, tail);
    NotDigitFirst('[', t + tail);
    var text := "[" + t + "]" + PortText(port);
    assert text == ['['] + (t + tail);
    ShortRunsFit(text, pton);
    CanonicalChars(w, t);
    assert forall i :: 0 <= i < |t| ==> t[i] != '\0';
  }

  lemma TextReadable(kind: set<NetType>, ip: seq<byte>, port: int, text: string, pton: string -> Option<octets>)
    requires port < 0x1_0000 && TextOf(kind, ip, port, text)
    ensures NumbersFit(text, pton) && '\0' !in text
  {
    hide NumbersFit, Canonical, V4Text, PortText, Words;
    if kind * {Ipv4, WebsocketIpv4} != {} {
      V4TextReadable(ip, port, pton);
    } else {
      var t :| Canonical(Words(ip), t) && text == "[" + t + "]" + PortText(port);
      V6TextReadable(Words(ip), t, port, pton);
    }
  }

  /** The characters before the terminator. */
  method CString(buffer: array<char>) returns (s: string)
    requires '\0' in buffer[..]
    ensures |s| < buffer.Length && buffer[|s|] == '\0' && s == buffer[..|s|] && '\0' !in s
  {
    var n := 0;
    while buffer[n] != '\0'
      invariant n < buffer.Length && '\0' in buffer[n..] && '\0' !in buffer[..n]
      decreases buffer.Length - n
    {
      n := n + 1;
    }
    s := buffer[..n];
  }

  /**
    An address printed into a buffer of the documented size and parsed again: IPv6 addresses come back
    whole, of IPv4 addresses the four bytes that are printed; the port comes back if it was printed.
  */
  method PrintAndParse(addr: NetAddress, addPort: bool, pton: string -> Option<octets>)
    returns (r: int, copy: NetAddress)
    requires addr.Valid() && addr.kind * {Ipv4, WebsocketIpv4, Ipv6, WebsocketIpv6} != {} && ReadsRfc4291(pton)
    ensures r == 0 && copy.Valid() && copy.port == if addPort then addr.port else 0
    ensures if addr.kind * {Ipv4, WebsocketIpv4} != {} then copy.kind == {Ipv4} && copy.ip[..4] == addr.ip[..4]
            else copy.kind == {Ipv6} && copy.ip[..] == addr.ip[..]
  {
    hide Canonical, ReadsRfc4291, FromStr, NumbersFit, TextOf;
    var buffer := new char[NETADDR_MAXSTRSIZE];
    ghost var text := NetAddrStr(addr, buffer, NETADDR_MAXSTRSIZE, addPort);
    ghost var ip, port := addr.ip[..], if addPort then addr.port else -1;
    TextFits(addr.kind, ip, port, text);
    TextReadable(addr.kind, ip, port, text, pton);
    PrintedReadsBack(addr.kind, ip, port, text, pton);
    assert buffer[|text|] == '\0' && buffer[..|text|] == text;
    assert buffer[..][|text|] == '\0';
    var s := CString(buffer);
    SameString(buffer[..], s, text);
    copy := new NetAddress();
    r := NetAddrFromStr(copy, s, pton);
  }

  lemma SameString(buffer: seq<char>, s: string, t: string)
    requires |s| < |buffer| && buffer[|s|] == '\0' && s == buffer[..|s|] && '\0' !in s
    requires |t| < |buffer| && buffer[|t|] == '\0' && t == buffer[..|t|] && '\0' !in t
    ensures s == t
  {
    NotBehind(buffer, s, |t|);
    NotBehind(buffer, t, |s|);
  }

  /** A terminator is never inside the string in front of the first one. */
  lemma NotBehind(buffer: seq<char>, s: string, end: nat)
    requires |s| < |buffer| && s == buffer[..|s|] && '\0' !in s && end < |buffer| && buffer[end] == '\0'
    ensures |s| <= end
  {
    if end < |s| {
      Inside(s, end);
    }
  }

  lemma Inside(s: string, i: nat)
    requires '\0' !in s && i < |s|
    ensures s[i] != '\0'
  {
  }
}
