/** The texts of IPv6 addresses: how section 2.2 of RFC 4291 reads them and which one section 4 of RFC 5952 picks. */
module AddrText {
  import opened Text
  import opened Wrappers

  type word = x: int | 0 <= x < 0x1_0000

  // ----- reading (RFC 4291, section 2.2, forms 1 and 2) -----

  /** The colon-separated fields of a text; there is always at least one. */
  function Split(s: string): (fields: seq<string>)
    ensures |fields| > 0
  {
    if s == [] then [""]
    else if s[0] == ':' then [""] + Split(s[1..])
    else
      var rest := Split(s[1..]);
      [[s[0]] + rest[0]] + rest[1..]
  }

  /** A group is one to four hexadecimal digits. */
  function ReadGroup(f: string): Option<word> {
    if 1 <= |f| <= 4 && AllDigits(f, 16) then
      GroupBelow(f);
      Some(Value(f, 16))
    else None
  }

  function ReadGroups(fields: seq<string>): Option<seq<word>> {
    if fields == [] then Some([])
    else match (ReadGroup(fields[0]), ReadGroups(fields[1..]))
      case (Some(w), Some(rest)) => Some([w] + rest)
      case _ => None
  }

  /** Where the text has its first "::", or its length. */
  function FindDouble(s: string): (n: nat)
    ensures n == |s| || (n + 2 <= |s| && s[n] == s[n + 1] == ':')
  {
    if |s| < 2 then |s|
    else if s[0] == s[1] == ':' then 0
    else 1 + FindDouble(s[1..])
  }

  /** The groups on one side of a "::". */
  function ReadSide(s: string): Option<seq<word>> {
    if s == [] then Some([]) else ReadGroups(Split(s))
  }

  function Zeros(n: nat): (z: seq<word>)
    ensures |z| == n
  {
    seq(n, i => 0)
  }

  /** Eight groups, where "::" once stands for one or more groups of zeros. */
  function ReadV6(s: string): (ip: Option<seq<word>>)
    ensures ip.Some? ==> |ip.value| == 8
  {
    var n := FindDouble(s);
    if n == |s| then
      var groups := ReadGroups(Split(s));
      if groups.Some? && |groups.value| == 8 then groups else None
    else
      match (ReadSide(s[..n]), ReadSide(s[n + 2..]))
      case (Some(left), Some(right)) =>
        if |left| + |right| <= 7 then Some(left + Zeros(8 - |left| - |right|) + right) else None
      case _ => None
  }

  // ----- the canonical text (RFC 5952, section 4) -----

  predicate ZeroRun(ip: seq<word>, start: int, length: int) {
    0 <= start && 0 <= length && start + length <= |ip| && forall i :: start <= i < start + length ==> ip[i] == 0
  }

  /** The first of the longest runs of two or more zeros, or no run. */
  ghost predicate RunToShorten(ip: seq<word>, start: int, length: int) {
    && (forall s, l :: ZeroRun(ip, s, l) && l >= 2 ==> l <= length && (l == length ==> start <= s))
    && if length == 0 then start == -1 else length >= 2 && ZeroRun(ip, start, length)
  }

  function Join(fields: seq<string>): string {
    if fields == [] then "" else if |fields| == 1 then fields[0] else fields[0] + ":" + Join(fields[1..])
  }

  /** Lower-case hexadecimal without leading zeros. */
  function Groups(ip: seq<word>): (fields: seq<string>)
    ensures |fields| == |ip|
  {
    seq(|ip|, i requires 0 <= i < |ip| => Hex(ip[i]))
  }

  function Shortened(ip: seq<word>, start: int, length: int): string
    requires length == 0 || (0 <= start && 0 < length && start + length <= |ip|)
  {
    if length == 0 then Join(Groups(ip))
    else Join(Groups(ip[..start])) + "::" + Join(Groups(ip[start + length..]))
  }

  /** text is the address as section 4 of RFC 5952 recommends it. */
  ghost predicate Canonical(ip: seq<word>, text: string) {
    exists start, length :: RunToShorten(ip, start, length) && text == Shortened(ip, start, length)
  }

  lemma RunUnique(ip: seq<word>, s1: int, l1: int, s2: int, l2: int)
    requires RunToShorten(ip, s1, l1) && RunToShorten(ip, s2, l2)
    ensures s1 == s2 && l1 == l2
  {
  }

  // ----- the canonical text is read as the address -----

  lemma GroupBelow(f: string)
    requires |f| <= 4 && AllDigits(f, 16)
    ensures Value(f, 16) < 0x1_0000
  {
    ValueBelow(f, 16);
    Powers16();
  }

  lemma Powers16()
    ensures Power(16, 0) == 1 && Power(16, 1) == 16 && Power(16, 2) == 256
    ensures Power(16, 3) == 4096 && Power(16, 4) == 0x1_0000
  {
    assert Power(16, 1) == Power(16, 0) * 16;
    assert Power(16, 2) == Power(16, 1) * 16;
    assert Power(16, 3) == Power(16, 2) * 16;
  }

  predicate IsField(f: string) {
    f != [] && ':' !in f
  }

  lemma HexIsField(w: word)
    ensures IsField(Hex(w)) && |Hex(w)| <= 4 && ReadGroup(Hex(w)) == Some(w)
  {
    ValueOfDigits(w, 16);
    Powers16();
    DigitsAtMost(w, 16, 4);
    var f := Hex(w);
    assert forall i :: 0 <= i < |f| ==> 0 <= DigitOf(f[i]);
  }

  lemma {:induction false} SplitField(f: string, s: string)
    requires ':' !in f
    ensures Split(f + ":" + s) == [f] + Split(s)
    decreases |f|
  {
    var t := f + ":" + s;
    if f == [] {
      assert t[1..] == s;
    } else {
      SplitField(f[1..], s);
      assert t[1..] == f[1..] + ":" + s;
      assert f == [f[0]] + f[1..];
    }
  }

  lemma {:induction false} SplitLast(f: string)
    requires ':' !in f
    ensures Split(f) == [f]
    decreases |f|
  {
    if f != [] {
      SplitLast(f[1..]);
      assert f == [f[0]] + f[1..];
    }
  }

  lemma {:induction false} SplitJoin(fields: seq<string>)
    requires fields != [] && forall i :: 0 <= i < |fields| ==> IsField(fields[i])
    ensures Split(Join(fields)) == fields
    decreases |fields|
  {
    hide Split;
    if |fields| == 1 {
      SplitLast(fields[0]);
    } else {
      SplitJoin(fields[1..]);
      SplitField(fields[0], Join(fields[1..]));
    }
  }

  lemma {:induction false} ReadGroupsBack(ip: seq<word>)
    ensures ReadGroups(Groups(ip)) == Some(ip)
    ensures forall i :: 0 <= i < |ip| ==> IsField(Groups(ip)[i]) && |Groups(ip)[i]| <= 4
    decreases |ip|
  {
    hide Hex, ReadGroup, IsField;
    if ip != [] {
      HexIsField(ip[0]);
      ReadGroupsBack(ip[1..]);
      assert Groups(ip) == [Hex(ip[0])] + Groups(ip[1..]);
      assert ip == [ip[0]] + ip[1..];
    }
  }

  /** No two neighbouring colons, none in front and none at the end. */
  ghost predicate SingleColons(s: string) {
    && (s != [] ==> s[0] != ':' && s[|s| - 1] != ':')
    && forall i :: 0 <= i < |s| - 1 ==> !(s[i] == ':' && s[i + 1] == ':')
  }

  lemma {:induction false} JoinSingleColons(fields: seq<string>)
    requires forall i :: 0 <= i < |fields| ==> IsField(fields[i])
    ensures SingleColons(Join(fields)) && (Join(fields) == [] <==> fields == [])
    decreases |fields|
  {
    if |fields| > 1 {
      var f, rest := fields[0], Join(fields[1..]);
      JoinSingleColons(fields[1..]);
      var s := f + ":" + rest;
      assert s[|f|] == ':' && s[|f| + 1..] == rest;
      forall i | 0 <= i < |s| - 1
        ensures !(s[i] == ':' && s[i + 1] == ':')
      {
        if i < |f| {
          assert s[i] == f[i];
        } else if i > |f| {
          assert s[i] == rest[i - |f| - 1] && s[i + 1] == rest[i - |f|];
        } else {
          assert s[i + 1] == rest[0];
        }
      }
      assert s[0] == f[0] && s[|s| - 1] == rest[|rest| - 1];
    }
  }

  lemma {:induction false} FindDoubleAt(s: string, n: nat)
    requires n == |s| || (n + 2 <= |s| && s[n] == s[n + 1] == ':')
    requires forall i :: 0 <= i < n && i < |s| - 1 ==> !(s[i] == ':' && s[i + 1] == ':')
    ensures FindDouble(s) == n
    decreases |s|
  {
    if |s| >= 2 && n > 0 {
      var rest := s[1..];
      assert forall i :: 0 <= i < |rest| ==> rest[i] == s[i + 1];
      FindDoubleAt(rest, n - 1);
    }
  }

  lemma ReadSideBack(ip: seq<word>)
    ensures ReadSide(Join(Groups(ip))) == Some(ip)
  {
    hide Groups, Split, Join;
    ReadGroupsBack(ip);
    JoinSingleColons(Groups(ip));
    if ip != [] {
      SplitJoin(Groups(ip));
    }
  }

  lemma ReadUnshortened(ip: seq<word>)
    requires |ip| == 8
    ensures ReadV6(Join(Groups(ip))) == Some(ip)
  {
    hide Groups, Split, Join;
    var s := Join(Groups(ip));
    ReadGroupsBack(ip);
    JoinSingleColons(Groups(ip));
    FindDoubleAt(s, |s|);
    SplitJoin(Groups(ip));
  }

  lemma DoubleBetween(a: string, b: string)
    requires SingleColons(a) && SingleColons(b)
    ensures var s := a + "::" + b; FindDouble(s) == |a| && s[..|a|] == a && s[|a| + 2..] == b
  {
    var s := a + "::" + b;
    assert s[..|a|] == a && s[|a|] == s[|a| + 1] == ':';
    forall i | 0 <= i < |a|
      ensures !(s[i] == ':' && s[i + 1] == ':')
    {
      assert s[i] == a[i];
      if i + 1 < |a| {
        assert s[i + 1] == a[i + 1];
      }
    }
    FindDoubleAt(s, |a|);
  }

  lemma ReadShortened(ip: seq<word>, start: nat, length: nat)
    requires |ip| == 8 && length > 0 && ZeroRun(ip, start, length)
    ensures ReadV6(Shortened(ip, start, length)) == Some(ip)
  {
    hide Groups, Join, ReadSide, SingleColons;
    var left, right := ip[..start], ip[start + length..];
    var a, b := Join(Groups(left)), Join(Groups(right));
    ReadSideBack(left);
    ReadSideBack(right);
    ReadGroupsBack(left);
    ReadGroupsBack(right);
    JoinSingleColons(Groups(left));
    JoinSingleColons(Groups(right));
    DoubleBetween(a, b);
    assert left + Zeros(length) + right == ip;
  }

  /** Every address is read back from its canonical text. */
  lemma CanonicalReads(ip: seq<word>, text: string)
    requires |ip| == 8 && Canonical(ip, text)
    ensures ReadV6(text) == Some(ip)
  {
    hide ReadV6, Groups, Join;
    var start, length :| RunToShorten(ip, start, length) && text == Shortened(ip, start, length);
    if length == 0 {
      ReadUnshortened(ip);
    } else {
      ReadShortened(ip, start, length);
    }
  }

  /** Two addresses share a canonical text only if they are equal. */
  lemma CanonicalApart(ip1: seq<word>, ip2: seq<word>, t1: string, t2: string)
    requires |ip1| == |ip2| == 8 && Canonical(ip1, t1) && Canonical(ip2, t2)
    ensures t1 == t2 <==> ip1 == ip2
  {
    hide ReadV6, Shortened;
    CanonicalReads(ip1, t1);
    CanonicalReads(ip2, t2);
    if ip1 == ip2 {
      var s1, l1 :| RunToShorten(ip1, s1, l1) && t1 == Shortened(ip1, s1, l1);
      var s2, l2 :| RunToShorten(ip2, s2, l2) && t2 == Shortened(ip2, s2, l2);
      RunUnique(ip1, s1, l1, s2, l2);
    }
  }

  /** Every group is lower-case hexadecimal (section 4.3) without leading zeros (section 4.1). */
  lemma GroupsStyle(ip: seq<word>, i: nat)
    requires i < |ip|
    ensures var f := Groups(ip)[i];
            && 1 <= |f| <= 4 && (f[0] == '0' ==> f == "0")
            && forall k :: 0 <= k < |f| ==> '0' <= f[k] <= '9' || 'a' <= f[k] <= 'f'
  {
    hide Digits;
    DigitsStyle(ip[i], 16);
    HexIsField(ip[i]);
  }

  // ----- its characters and its length -----

  predicate AddrChars(s: string) {
    forall i :: 0 <= i < |s| ==> s[i] == ':' || DigitOf(s[i]) >= 0
  }

  lemma {:induction false} JoinChars(ip: seq<word>)
    ensures AddrChars(Join(Groups(ip)))
    decreases |ip|
  {
    if ip != [] {
      ValueOfDigits(ip[0], 16);
      JoinChars(ip[1..]);
      assert Groups(ip) == [Hex(ip[0])] + Groups(ip[1..]);
      assert Groups(ip)[1..] == Groups(ip[1..]);
    }
  }

  lemma CanonicalChars(ip: seq<word>, text: string)
    requires Canonical(ip, text)
    ensures AddrChars(text)
  {
    hide Groups, Join, DigitOf;
    var start, length :| RunToShorten(ip, start, length) && text == Shortened(ip, start, length);
    if length == 0 {
      JoinChars(ip);
    } else {
      JoinChars(ip[..start]);
      JoinChars(ip[start + length..]);
    }
  }

  lemma {:induction false} JoinLength(fields: seq<string>)
    requires forall i :: 0 <= i < |fields| ==> |fields[i]| <= 4
    ensures |Join(fields)| <= if fields == [] then 0 else 5 * |fields| - 1
    decreases |fields|
  {
    if |fields| > 1 {
      JoinLength(fields[1..]);
    }
  }

  lemma CanonicalLength(ip: seq<word>, text: string)
    requires |ip| == 8 && Canonical(ip, text)
    ensures |text| <= 39
  {
    hide Groups, Join;
    var start, length :| RunToShorten(ip, start, length) && text == Shortened(ip, start, length);
    if length == 0 {
      ReadGroupsBack(ip);
      JoinLength(Groups(ip));
    } else {
      ReadGroupsBack(ip[..start]);
      ReadGroupsBack(ip[start + length..]);
      JoinLength(Groups(ip[..start]));
      JoinLength(Groups(ip[start + length..]));
    }
  }
}
