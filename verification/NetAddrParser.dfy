/** Parsing the text of network addresses: what is accepted, and the methods that do it. */
module NetAddrParser {
  import opened Bytes
  import opened Text
  import opened Wrappers
  import opened AddrText
  import opened NetAddr

  const INT_RANGE: nat := 0x8000_0000

  /** A number at most max in front of the rest of the text. */
  datatype Number = Number(value: nat, rest: string)

  function ReadNumber(s: string, max: nat): (r: Option<Number>)
    ensures r.Some? ==> |r.value.rest| < |s| && r.value.value <= max
  {
    var n := DigitRun(s);
    if n == 0 || Value(s[..n], 10) > max then None else Some(Number(Value(s[..n], 10), s[n..]))
  }

  /** parse_uint8 on the text. */
  datatype Octet = Octet(value: byte, rest: string)

  function ReadOctet(s: string): Option<Octet> {
    match ReadNumber(s, 255)
    case Some(Number(v, rest)) => Some(Octet(v, rest))
    case None => None
  }

  function ReadDotted(s: string): Option<Octet> {
    match ReadOctet(s)
    case Some(Octet(v, rest)) => if rest != [] && rest[0] == '.' then Some(Octet(v, rest[1..])) else None
    case None => None
  }

  /** Nothing, or a colon and a number; what follows the number is left. */
  function ReadPort(s: string): Option<Number> {
    if s != [] && s[0] == ':' then ReadNumber(s[1..], 0xffff) else Some(Number(0, s))
  }

  datatype Endpoint = Endpoint(ip: seq<byte>, port: nat)

  function ReadV4(s: string): (r: Option<Endpoint>)
    ensures r.Some? ==> |r.value.ip| == 4
  {
    match ReadDotted(s)
    case None => None
    case Some(Octet(a, s1)) =>
      match ReadDotted(s1)
      case None => None
      case Some(Octet(b, s2)) =>
        match ReadDotted(s2)
        case None => None
        case Some(Octet(c, s3)) =>
          match ReadOctet(s3)
          case None => None
          case Some(Octet(d, s4)) =>
            match ReadPort(s4)
            case Some(Number(port, s5)) => if s5 == [] then Some(Endpoint([a, b, c, d], port)) else None
            case None => None
  }

  /** t is a number of at most max. */
  ghost predicate IsNumber(t: string, max: nat, v: nat) {
    t != [] && AllDigits(t, 10) && Value(t, 10) == v <= max
  }

  /** The notation of IPv4 addresses: four numbers up to 255 with dots, and a port if there is a colon. */
  ghost predicate DottedQuad(s: string, e: Endpoint, a: string, b: string, c: string, d: string, tail: string) {
    && |e.ip| == 4 && s == a + "." + (b + "." + (c + "." + (d + tail)))
    && IsNumber(a, 255, e.ip[0]) && IsNumber(b, 255, e.ip[1]) && IsNumber(c, 255, e.ip[2]) && IsNumber(d, 255, e.ip[3])
    && if tail == [] then e.port == 0 else tail[0] == ':' && IsNumber(tail[1..], 0xffff, e.port)
  }

  /** A text starts with a number exactly when it splits into digits and something that is not a digit. */
  lemma ReadNumberIff(s: string, max: nat, v: nat, rest: string)
    ensures ReadNumber(s, max) == Some(Number(v, rest)) <==>
              exists t :: IsNumber(t, max, v) && s == t + rest && !StartsWithDigit(rest)
  {
    if ReadNumber(s, max) == Some(Number(v, rest)) {
      var t := s[..DigitRun(s)];
      assert IsNumber(t, max, v) && s == t + rest && !StartsWithDigit(rest);
    }
    forall t | IsNumber(t, max, v) && s == t + rest && !StartsWithDigit(rest)
      ensures ReadNumber(s, max) == Some(Number(v, rest))
    {
      DigitRunIs(t, rest);
      assert s[..|t|] == t && s[|t|..] == rest;
    }
  }

  lemma NumberIn(s: string, max: nat, v: nat, t: string, rest: string)
    requires IsNumber(t, max, v) && s == t + rest && !StartsWithDigit(rest)
    ensures ReadNumber(s, max) == Some(Number(v, rest))
  {
    hide ReadNumber, IsNumber;
    ReadNumberIff(s, max, v, rest);
  }

  lemma NumberOut(s: string, max: nat) returns (t: string)
    requires ReadNumber(s, max).Some?
    ensures var n := ReadNumber(s, max).value; IsNumber(t, max, n.value) && s == t + n.rest && !StartsWithDigit(n.rest)
  {
    hide ReadNumber, IsNumber;
    var n := ReadNumber(s, max).value;
    ReadNumberIff(s, max, n.value, n.rest);
    t :| IsNumber(t, max, n.value) && s == t + n.rest && !StartsWithDigit(n.rest);
  }

  lemma DottedIn(s: string, v: byte, t: string, rest: string)
    requires IsNumber(t, 255, v) && s == t + "." + rest
    ensures ReadDotted(s) == Some(Octet(v, rest))
  {
    hide ReadNumber, IsNumber;
    assert s == t + ("." + rest);
    NumberIn(s, 255, v, t, "." + rest);
    assert ("." + rest)[1..] == rest;
  }

  lemma DottedOut(s: string) returns (t: string)
    requires ReadDotted(s).Some?
    ensures var n := ReadDotted(s).value; IsNumber(t, 255, n.value) && s == t + "." + n.rest
  {
    hide ReadNumber, IsNumber;
    t := NumberOut(s, 255);
  }

  /** The parser accepts exactly the notation, and the address is the one written. */
  lemma ReadV4Iff(s: string, e: Endpoint)
    ensures ReadV4(s) == Some(e) <==> exists a, b, c, d, tail :: DottedQuad(s, e, a, b, c, d, tail)
  {
    hide ReadOctet, ReadDotted, DottedQuad;
    if ReadV4(s) == Some(e) {
      ReadV4Out(s, e);
    }
    forall a, b, c, d, tail | DottedQuad(s, e, a, b, c, d, tail)
      ensures ReadV4(s) == Some(e)
    {
      ReadV4In(s, e, a, b, c, d, tail);
    }
  }

  lemma ReadV4Out(s: string, e: Endpoint)
    requires ReadV4(s) == Some(e)
    ensures exists a, b, c, d, tail :: DottedQuad(s, e, a, b, c, d, tail)
  {
    hide ReadNumber, ReadDotted, IsNumber;
    var s1 := ReadDotted(s).value.rest;
    var s2 := ReadDotted(s1).value.rest;
    var s3 := ReadDotted(s2).value.rest;
    var s4 := ReadOctet(s3).value.rest;
    var a := DottedOut(s);
    var b := DottedOut(s1);
    var c := DottedOut(s2);
    var d := NumberOut(s3, 255);
    if s4 != [] {
      var port := NumberOut(s4[1..], 0xffff);
      assert port + [] == port;
    }
    assert DottedQuad(s, e, a, b, c, d, s4);
  }

  lemma ReadV4In(s: string, e: Endpoint, a: string, b: string, c: string, d: string, tail: string)
    requires DottedQuad(s, e, a, b, c, d, tail)
    ensures ReadV4(s) == Some(e)
  {
    hide ReadNumber, ReadDotted, IsNumber;
    var s3 := d + tail;
    var s2 := c + "." + s3;
    var s1 := b + "." + s2;
    DottedIn(s, e.ip[0], a, s1);
    DottedIn(s1, e.ip[1], b, s2);
    DottedIn(s2, e.ip[2], c, s3);
    NumberIn(s3, 255, e.ip[3], d, tail);
    if tail != [] {
      assert tail[1..] == tail[1..] + [];
      NumberIn(tail[1..], 0xffff, e.port, tail[1..], []);
    }
    assert [e.ip[0], e.ip[1], e.ip[2], e.ip[3]] == e.ip;
  }

  lemma DecimalIsNumber(v: nat, max: nat)
    requires v <= max
    ensures IsNumber(Decimal(v), max, v)
  {
    ValueOfDigits(v, 10);
  }

  /** A printed IPv4 address, with or without port, reads back. */
  lemma V4RoundTrip(ip: seq<byte>, port: int)
    requires |ip| >= 4 && port < 0x1_0000
    ensures ReadV4(V4Text(ip, port)) == Some(Endpoint(ip[..4], if port >= 0 then port else 0))
  {
    hide Decimal, IsNumber, ReadV4;
    var e := Endpoint(ip[..4], if port >= 0 then port else 0);
    var a, b, c, d, tail := Decimal(ip[0]), Decimal(ip[1]), Decimal(ip[2]), Decimal(ip[3]), PortText(port);
    DecimalIsNumber(ip[0], 255);
    DecimalIsNumber(ip[1], 255);
    DecimalIsNumber(ip[2], 255);
    DecimalIsNumber(ip[3], 255);
    if port >= 0 {
      DecimalIsNumber(port, 0xffff);
      assert tail[1..] == Decimal(port);
    }
    assert V4Text(ip, port) == a + "." + (b + "." + (c + "." + (d + tail)));
    assert DottedQuad(V4Text(ip, port), e, a, b, c, d, tail);
    ReadV4Iff(V4Text(ip, port), e);
  }

  // ----- IPv6 -----

  /** How many of the characters go into the 128-byte buffer that inet_pton gets. */
  function HostLength(s: string, room: nat): (n: nat)
    ensures n <= |s| && n <= room && ']' !in s[..n] && (n == |s| || n == room || s[n] == ']')
  {
    if s == [] || room == 0 || s[0] == ']' then 0
    else
      var n := 1 + HostLength(s[1..], room - 1);
      assert s[..n] == [s[0]] + s[1..][..n - 1];
      n
  }

  datatype HostPort = HostPort(host: string, port: nat)

  /** The text between the brackets and the port behind them; other text may follow. */
  function ReadBracketed(s: string): Option<HostPort>
    requires s != [] && s[0] == '['
  {
    var n := HostLength(s[1..], 127);
    var behind := s[n + 1..];
    if behind == [] || behind[0] != ']' then None
    else
      match ReadPort(behind[1..])
      case Some(Number(port, _)) => Some(HostPort(s[1..n + 1], port))
      case None => None
  }

  ghost predicate Bracketed(s: string, h: HostPort, tail: string) {
    && s == "[" + h.host + "]" + tail && |h.host| <= 127 && ']' !in h.host
    && if tail == [] || tail[0] != ':' then h.port == 0
       else exists t, more :: IsNumber(t, 0xffff, h.port) && tail[1..] == t + more && !StartsWithDigit(more)
  }

  lemma {:induction false} HostLengthIs(host: string, tail: string, room: nat)
    requires ']' !in host && |host| <= room
    ensures HostLength(host + "]" + tail, room) == |host|
    decreases |host|
  {
    var s := host + "]" + tail;
    if host != [] {
      assert s[1..] == host[1..] + "]" + tail;
      HostLengthIs(host[1..], tail, room - 1);
    }
  }

  /** The bracket code accepts exactly a short enough host in brackets with nothing, or no malformed port, behind it. */
  lemma ReadBracketedIff(s: string, h: HostPort)
    requires s != [] && s[0] == '['
    ensures ReadBracketed(s) == Some(h) <==> exists tail :: Bracketed(s, h, tail)
  {
    hide ReadBracketed, Bracketed;
    if ReadBracketed(s) == Some(h) {
      ReadBracketedOut(s, h);
    }
    forall tail | Bracketed(s, h, tail)
      ensures ReadBracketed(s) == Some(h)
    {
      ReadBracketedIn(s, h, tail);
    }
  }

  lemma ReadBracketedOut(s: string, h: HostPort)
    requires s != [] && s[0] == '[' && ReadBracketed(s) == Some(h)
    ensures exists tail :: Bracketed(s, h, tail)
  {
    hide ReadNumber, HostLength, IsNumber;
    var tail := s[|h.host| + 2..];
    assert s == "[" + h.host + "]" + tail;
    assert s[|h.host| + 1..][1..] == tail && h.host == s[1..][..|h.host|];
    if tail != [] && tail[0] == ':' {
      var t := NumberOut(tail[1..], 0xffff);
      var more := ReadNumber(tail[1..], 0xffff).value.rest;
      assert IsNumber(t, 0xffff, h.port) && tail[1..] == t + more && !StartsWithDigit(more);
    }
    assert Bracketed(s, h, tail);
  }

  lemma ReadBracketedIn(s: string, h: HostPort, tail: string)
    requires s != [] && s[0] == '[' && Bracketed(s, h, tail)
    ensures ReadBracketed(s) == Some(h)
  {
    hide ReadNumber, HostLength, IsNumber;
    assert s[1..] == h.host + "]" + tail;
    HostLengthIs(h.host, tail, 127);
    assert s[|h.host| + 1..] == "]" + tail && ("]" + tail)[1..] == tail && s[1..|h.host| + 1] == h.host;
    if tail != [] && tail[0] == ':' {
      var t, more :| IsNumber(t, 0xffff, h.port) && tail[1..] == t + more && !StartsWithDigit(more);
      NumberIn(tail[1..], 0xffff, h.port, t, more);
    }
  }

  type octets = o: seq<byte> | |o| == 16 witness seq(16, i => 0)

  datatype Parsed = Parsed(kind: set<NetType>, ip: seq<byte>, port: nat)

  /** What net_addr_from_str fills in, given the system's conversion of IPv6 addresses. */
  function FromStr(s: string, pton: string -> Option<octets>): (r: Option<Parsed>)
    ensures r.Some? ==> |r.value.ip| == 16
  {
    if s != [] && s[0] == '[' then
      match ReadBracketed(s)
      case None => None
      case Some(HostPort(host, port)) =>
        match pton(host)
        case None => None
        case Some(ip) => Some(Parsed({Ipv6}, ip, port))
    else
      match ReadV4(s)
      case None => None
      case Some(Endpoint(ip, port)) => Some(Parsed({Ipv4}, ip + seq(12, i => 0), port))
  }

  /** The conversion reads the forms of section 2.2 of RFC 4291 without dotted quads. */
  ghost predicate ReadsRfc4291(pton: string -> Option<octets>) {
    forall t :: ReadV6(t).Some? ==> pton(t) == Some(Octets(ReadV6(t).value))
  }

  lemma CanonicalHost(w: seq<word>, t: string)
    requires |w| == 8 && Canonical(w, t)
    ensures |t| <= 39 && ']' !in t
  {
    hide Canonical;
    CanonicalLength(w, t);
    CanonicalChars(w, t);
  }

  /** Every printed address reads back: type, address and port. */
  lemma PrintedReadsBack(kind: set<NetType>, ip: seq<byte>, port: int, text: string, pton: string -> Option<octets>)
    requires ReadsRfc4291(pton) && port < 0x1_0000 && TextOf(kind, ip, port, text)
    ensures kind * {Ipv4, WebsocketIpv4} != {} ==>
              FromStr(text, pton) == Some(Parsed({Ipv4}, ip[..4] + seq(12, i => 0), if port >= 0 then port else 0))
    ensures kind * {Ipv4, WebsocketIpv4} == {} ==>
              FromStr(text, pton) == Some(Parsed({Ipv6}, ip, if port >= 0 then port else 0))
  {
    if kind * {Ipv4, WebsocketIpv4} != {} {
      PrintedV4ReadsBack(ip, port, pton);
    } else {
      var t :| Canonical(Words(ip), t) && text == "[" + t + "]" + PortText(port);
      PrintedV6ReadsBack(ip, port, t, pton);
    }
  }

  lemma PrintedV4ReadsBack(ip: seq<byte>, port: int, pton: string -> Option<octets>)
    requires |ip| == 16 && port < 0x1_0000
    ensures FromStr(V4Text(ip, port), pton)
         == Some(Parsed({Ipv4}, ip[..4] + seq(12, i => 0), if port >= 0 then port else 0))
  {
    V4RoundTrip(ip, port);
    DecimalStartsWithDigit(ip[0]);
    hide ReadV4, Decimal, ReadBracketed;
    assert V4Text(ip, port)[0] == Decimal(ip[0])[0];
  }

  lemma DecimalStartsWithDigit(n: nat)
    ensures Decimal(n)[0] != '['
  {
    ValueOfDigits(n, 10);
    assert 0 <= DigitOf(Decimal(n)[0]);
  }

  lemma PrintedV6ReadsBack(ip: seq<byte>, port: int, t: string, pton: string -> Option<octets>)
    requires |ip| == 16 && port < 0x1_0000 && Canonical(Words(ip), t) && ReadsRfc4291(pton)
    ensures FromStr("[" + t + "]" + PortText(port), pton) == Some(Parsed({Ipv6}, ip, if port >= 0 then port else 0))
  {
    hide Canonical, ReadV6, ReadBracketed, Decimal, IsNumber, Words, Octets;
    var text, tail, h := "[" + t + "]" + PortText(port), PortText(port), HostPort(t, if port >= 0 then port else 0);
    CanonicalHost(Words(ip), t);
    CanonicalReads(Words(ip), t);
    OctetsOfWords(ip);
    if port >= 0 {
      DecimalIsNumber(port, 0xffff);
      assert tail[1..] == Decimal(port) + [];
    }
    assert Bracketed(text, h, tail);
    ReadBracketedIff(text, h);
  }

  // ----- the parser's methods -----

  /** The digits a text starts with do not overflow the int that parse_int computes in. */
  ghost predicate NumberFits(s: string) {
    Value(s[..DigitRun(s)], 10) < INT_RANGE
  }

  ghost predicate PortFits(s: string) {
    s != [] && s[0] == ':' ==> NumberFits(s[1..])
  }

  /** None of the numbers that the IPv4 branch gets to overflows. */
  ghost predicate QuadFits(s: string) {
    && NumberFits(s)
    && match ReadDotted(s)
       case None => true
       case Some(Octet(_, s1)) =>
         && NumberFits(s1)
         && match ReadDotted(s1)
            case None => true
            case Some(Octet(_, s2)) =>
              && NumberFits(s2)
              && match ReadDotted(s2)
                 case None => true
                 case Some(Octet(_, s3)) =>
                   && NumberFits(s3)
                   && match ReadOctet(s3)
                      case None => true
                      case Some(Octet(_, s4)) => PortFits(s4)
  }

  /** Nor does the port that the IPv6 branch gets to. */
  ghost predicate BracketFits(s: string, pton: string -> Option<octets>)
    requires s != [] && s[0] == '['
  {
    var n := HostLength(s[1..], 127);
    pton(s[1..n + 1]).Some? && n + 1 < |s| && s[n + 1] == ']' ==> PortFits(s[n + 2..])
  }

  ghost predicate NumbersFit(s: string, pton: string -> Option<octets>) {
    if s != [] && s[0] == '[' then BracketFits(s, pton) else QuadFits(s)
  }

  lemma {:induction false} PrefixBelow(t: string, k: nat)
    requires AllDigits(t, 10) && k <= |t|
    ensures Value(t[..k], 10) <= Value(t, 10)
    decreases |t|
  {
    hide DigitOf;
    if k < |t| {
      PrefixBelow(t[..|t| - 1], k);
      assert t[..|t| - 1][..k] == t[..k];
    } else {
      assert t[..k] == t;
    }
  }

  /** The first k digits of the run at position pos have the value i. */
  ghost predicate RunSoFar(str: string, pos: nat, k: nat, i: nat) {
    pos <= |str| && var t := str[pos..]; k <= DigitRun(t) && AllDigits(t[..k], 10) && i == Value(t[..k], 10)
  }

  lemma NoRun(str: string, pos: nat)
    requires pos == |str| || (pos < |str| && !IsNum(str[pos]))
    ensures DigitRun(str[pos..]) == 0
  {
  }

  lemma RunStarts(str: string, pos: nat)
    requires pos < |str|
    ensures RunSoFar(str, pos, 0, 0)
  {
    assert str[pos..][..0] == [];
  }

  lemma RunGoesOn(str: string, pos: nat, k: nat, i: nat)
    requires RunSoFar(str, pos, k, i) && pos + k < |str| && IsNum(str[pos + k])
    ensures str[pos + k] >= '0' && RunSoFar(str, pos, k + 1, i * 10 + (str[pos + k] as int - '0' as int))
  {
    hide Value;
    var t := str[pos..];
    assert k < DigitRun(t);
    assert t[..k + 1] == t[..k] + [t[k]];
    ValueSnoc(t[..k], t[k], 10);
  }

  lemma RunStops(str: string, pos: nat, k: nat, i: nat)
    requires RunSoFar(str, pos, k, i) && (pos + k == |str| || (pos + k < |str| && !IsNum(str[pos + k])))
    ensures k == DigitRun(str[pos..]) && i == Value(str[pos..][..k], 10)
  {
    hide Value, DigitRun;
    if k < DigitRun(str[pos..]) {
      RunDigit(str[pos..], k);
    }
  }

  /** What parse_int has computed stays in the range of int. */
  lemma RunInRange(str: string, pos: nat, k: nat, i: nat)
    requires RunSoFar(str, pos, k, i) && NumberFits(str[pos..])
    ensures i < INT_RANGE
  {
    hide Value, DigitRun;
    var t := str[pos..];
    var run := t[..DigitRun(t)];
    assert run[..k] == t[..k];
    PrefixBelow(run, k);
  }

  /** parse_int, the pointer being a position. */
  method ParseInt(str: string, pos: nat) returns (res: int, out: int, next: nat)
    requires pos <= |str| && NumberFits(str[pos..])
    ensures var t := str[pos..]; var n := DigitRun(t);
            && next == pos + n
            && if n == 0 then res == -1 && out == 0 else res == 0 && out == Value(t[..n], 10)
  {
    hide *;
    out, next := 0, pos;
    if pos == |str| || !IsNum(str[pos]) {
      NoRun(str, pos);
      return -1, out, next;
    }
    RunStarts(str, pos);
    RunGoesOn(str, pos, 0, 0);
    var i := str[pos] as int - '0' as int;
    next := next + 1;
    while true
      invariant pos < next <= |str| && i >= 0 && RunSoFar(str, pos, next - pos, i)
      decreases |str| - next
    {
      RunInRange(str, pos, next - pos, i);
      assert i < INT_RANGE;
      if next == |str| || !IsNum(str[next]) {
        RunStops(str, pos, next - pos, i);
        return 0, i, next;
      }
      RunGoesOn(str, pos, next - pos, i);
      i := i * 10 + (str[next] as int - '0' as int);
      next := next + 1;
    }
  }

  /** parse_uint8 and parse_uint16, which differ in the largest value. */
  method ParseUint(str: string, pos: nat, max: nat) returns (res: int, out: nat, next: nat)
    requires pos <= |str| && NumberFits(str[pos..])
    ensures match ReadNumber(str[pos..], max)
            case Some(Number(v, rest)) => res == 0 && out == v && next <= |str| && str[next..] == rest
            case None => res == -1
  {
    hide DigitRun, Value;
    ghost var t := str[pos..];
    var r, i, after := ParseInt(str, pos);
    assert DigitRun(t) <= |t| && t[DigitRun(t)..] == str[after..];
    if r != 0 {
      return -1, 0, after;
    }
    if i < 0 || i > max {
      return -1, 0, after;
    }
    return 0, i, after;
  }

  /** parse_uint8 and the parse_char that follows it in the first three fields. */
  method ParseDotted(str: string, pos: nat) returns (res: int, out: byte, next: nat)
    requires pos <= |str| && NumberFits(str[pos..])
    ensures match ReadDotted(str[pos..])
            case Some(Octet(v, rest)) => res == 0 && out == v && next <= |str| && str[next..] == rest
            case None => res == -1
  {
    hide ReadNumber, NumberFits;
    var r, v, after := ParseUint(str, pos, 0xff);
    if r != 0 {
      return -1, 0, pos;
    }
    ghost var rest := str[after..];
    if after == |str| || str[after] != '.' {
      return -1, 0, pos;
    }
    assert rest[1..] == str[after + 1..];
    return 0, v, after + 1;
  }

  /** The port of both branches of net_addr_from_str. */
  method ParsePort(str: string, pos: nat) returns (res: int, port: nat, next: nat)
    requires pos <= |str| && PortFits(str[pos..])
    ensures match ReadPort(str[pos..])
            case Some(Number(v, rest)) => res == 0 && port == v && next <= |str| && str[next..] == rest
            case None => res == -1
  {
    hide ReadNumber, NumberFits;
    ghost var t := str[pos..];
    if pos < |str| && str[pos] == ':' {
      assert t[1..] == str[pos + 1..];
      res, port, next := ParseUint(str, pos + 1, 0xffff);
    } else {
      return 0, 0, pos;
    }
  }

  /** The IPv4 branch of net_addr_from_str. */
  method FromStrV4(addr: NetAddress, str: string) returns (r: int)
    requires addr.Valid() && QuadFits(str) && addr.ip[..] == seq(16, i => 0)
    modifies addr, addr.ip
    ensures match ReadV4(str)
            case Some(Endpoint(ip, port)) =>
              r == 0 && addr.kind == {Ipv4} && addr.ip[..] == ip + seq(12, i => 0) && addr.port == port
            case None => r == -1
  {
    hide NumberFits, PortFits, ReadDotted, ReadNumber, ReadPort;
    assert str[0..] == str;
    var res, a, p1 := ParseDotted(str, 0);
    if res != 0 {
      return -1;
    }
    addr.ip[0] := a;
    var b, p2;
    res, b, p2 := ParseDotted(str, p1);
    if res != 0 {
      return -1;
    }
    addr.ip[1] := b;
    var c, p3;
    res, c, p3 := ParseDotted(str, p2);
    if res != 0 {
      return -1;
    }
    addr.ip[2] := c;
    var d, p4;
    res, d, p4 := ParseUint(str, p3, 0xff);
    if res != 0 {
      return -1;
    }
    addr.ip[3] := d;
    var port, p5;
    res, port, p5 := ParsePort(str, p4);
    if res != 0 {
      return -1;
    }
    addr.port := port;
    if p5 < |str| {
      return -1;
    }
    addr.kind := {Ipv4};
    assert addr.ip[..] == [a, b, c, d] + seq(12, i => 0);
    return 0;
  }

  /** The loop that copies the host out of the brackets. */
  method CopyHost(str: string) returns (buf: string)
    requires str != []
    ensures buf == str[1..HostLength(str[1..], 127) + 1]
  {
    var i := 0;
    buf := "";
    ghost var t := str[1..];
    while i < 127 && 1 + i < |str| && str[1 + i] != ']'
      invariant 0 <= i <= 127 && 1 + i <= |str| && i <= HostLength(t, 127) && buf == t[..i]
    {
      buf := buf + [str[1 + i]];
      i := i + 1;
    }
  }

  /** The IPv6 branch of net_addr_from_str. */
  method FromStrV6(addr: NetAddress, str: string, pton: string -> Option<octets>) returns (r: int)
    requires addr.Valid() && str != [] && str[0] == '[' && BracketFits(str, pton)
    modifies addr, addr.ip
    ensures match FromStr(str, pton)
            case Some(p) => r == 0 && addr.kind == p.kind && addr.ip[..] == p.ip && addr.port == p.port
            case None => r == -1
  {
    hide PortFits, ReadNumber, ReadV4, ReadPort;
    var buf := CopyHost(str);
    var converted := pton(buf);
    if converted.None? {
      return -1;
    }
    addr.kind := {Ipv6};
    forall i | 0 <= i < 16 {
      addr.ip[i] := converted.value[i];
    }
    assert addr.ip[..] == converted.value;
    var pos := 1 + |buf|;
    ghost var behind := str[pos..];
    if pos < |str| && str[pos] == ']' {
      assert behind[1..] == str[pos + 1..];
      var res, port, next := ParsePort(str, pos + 1);
      if res != 0 {
        return -1;
      }
      addr.port := port;
    } else {
      return -1;
    }
    return 0;
  }

  /** net_addr_from_str; the string has no terminator inside. */
  method NetAddrFromStr(addr: NetAddress, str: string, pton: string -> Option<octets>) returns (r: int)
    requires addr.Valid() && NumbersFit(str, pton) && '\0' !in str
    modifies addr, addr.ip
    ensures match FromStr(str, pton)
            case Some(p) => r == 0 && addr.kind == p.kind && addr.ip[..] == p.ip && addr.port == p.port
            case None => r == -1
  {
    hide QuadFits, BracketFits, ReadV4, ReadBracketed;
    addr.kind, addr.port := {}, 0;
    forall i | 0 <= i < 16 {
      addr.ip[i] := 0;
    }
    assert addr.ip[..] == seq(16, i => 0);
    if str != [] && str[0] == '[' {
      r := FromStrV6(addr, str, pton);
    } else {
      r := FromStrV4(addr, str);
    }
  }
}
