/** The base64 printer and its strict parser. */
module Base64 {
  import opened Bytes

  // the table DIGITS of the printer, which is Table 1 of RFC 4648, sixteen at a time
  const DIGITS0: string := "ABCDEFGHIJKLMNOP"
  const DIGITS1: string := "QRSTUVWXYZabcdef"
  const DIGITS2: string := "ghijklmnopqrstuv"
  const DIGITS3: string := "wxyz0123456789+/"

  /** The digit for six bits. */
  function Digit(v: nat): (c: char)
    requires v < 64
  {
    if v < 26 then 'A' + v as char
    else if v < 52 then 'a' + (v - 26) as char
    else if v < 62 then '0' + (v - 52) as char
    else if v == 62 then '+' else '/'
  }

  lemma DigitIsInTable(v: nat)
    requires v < 64
    ensures |DIGITS0| == |DIGITS1| == |DIGITS2| == |DIGITS3| == 16
    ensures Digit(v) == (DIGITS0 + DIGITS1 + DIGITS2 + DIGITS3)[v]
  {
  }

  /** base64_digit_value. */
  function DigitValue(digit: char): (v: int)
    ensures -1 <= v < 64
    ensures v >= 0 ==> Digit(v) == digit
  {
    if 'A' <= digit <= 'Z' then digit as int - 'A' as int
    else if 'a' <= digit <= 'z' then digit as int - 'a' as int + 26
    else if '0' <= digit <= '9' then digit as int - '0' as int + 52
    else if digit == '+' then 62
    else if digit == '/' then 63
    else -1
  }

  lemma DigitValueOfDigit(v: nat)
    requires v < 64
    ensures DigitValue(Digit(v)) == v && Digit(v) != '='
  {
  }

  /** Byte i of data, or zero bits behind its end (section 3.5 of RFC 4648). */
  function ByteOrZero(data: seq<byte>, i: nat): byte {
    if i < |data| then data[i] else 0
  }

  /** Character o of the encoding: four characters for every three bytes (section 4 of RFC 4648). */
  function EncodedAt(data: seq<byte>, o: nat): char {
    var q, r := o / 4, o % 4;
    var b0, b1, b2 := ByteOrZero(data, 3 * q), ByteOrZero(data, 3 * q + 1), ByteOrZero(data, 3 * q + 2);
    if r == 0 then Digit(b0 / 4)
    else if r == 1 then Digit(b0 % 4 * 16 + b1 / 16)
    else if r == 2 then if 3 * q + 1 < |data| then Digit(b1 % 16 * 4 + b2 / 64) else '='
    else if 3 * q + 2 < |data| then Digit(b2 % 64) else '='
  }

  function EncodedLength(n: nat): nat {
    4 * ((n + 2) / 3)
  }

  function Encoded(data: seq<byte>): (s: string)
    ensures |s| == EncodedLength(|data|)
  {
    seq(EncodedLength(|data|), o requires o >= 0 => EncodedAt(data, o))
  }

  // ----- str_base64 -----

  /**
    How far the printer has come: o characters written, i bytes read, numBits of them not yet
    printed and held in the low bits of value; numBits is negative once zero bits have been added.
  */
  ghost predicate Progress(data: seq<byte>, i: nat, o: nat, numBits: int, value: nat) {
    var q, r := o / 4, o % 4;
    && i <= |data| && value < U32_RANGE
    && if numBits >= 0 then
         && i == 3 * q + r && numBits == 2 * r
         && (r == 1 ==> value % 4 == data[i - 1] % 4)
         && (r == 2 ==> value % 16 == data[i - 1] % 16)
         && (r == 3 ==> value % 64 == data[i - 1] % 64)
       else
         && i == |data|
         && ((i % 3 == 1 && numBits == -4 && ((r == 0 && i == 3 * q - 2) || (r >= 2 && i == 3 * q + 1)))
             || (i % 3 == 2 && numBits == -2 && ((r == 0 && i == 3 * q - 1) || (r == 3 && i == 3 * q + 2))))
  }

  /** The 32-bit accumulator after a byte has been shifted in. */
  function ShiftedIn(value: nat, b: byte): (v: nat)
    ensures v < U32_RANGE
  {
    (value * 256 + b) % U32_RANGE
  }

  /** Shifting a byte into the 32-bit accumulator keeps what its low bits were. */
  lemma ShiftIn(value: nat, b: byte)
    requires value < U32_RANGE
    ensures var v := ShiftedIn(value, b);
            && v % 256 == b && v % 1024 == value % 4 * 256 + b && v % 4096 == value % 16 * 256 + b
  {
    LowBits(value * 256 + b, 256);
    LowBits(value * 256 + b, 1024);
    LowBits(value * 256 + b, 4096);
    ShiftLow(value, b);
  }

  lemma ShiftLow(value: nat, b: byte)
    ensures (value * 256 + b) % 256 == b
    ensures (value * 256 + b) % 1024 == value % 4 * 256 + b
    ensures (value * 256 + b) % 4096 == value % 16 * 256 + b
  {
    SameLowBits256(b, value);
    assert (value * 256 + b) % 1024 == value % 4 * 256 + b by {
      assert value == 4 * (value / 4) + value % 4;
      SameLowBits1024(value % 4 * 256 + b, value / 4);
    }
    assert (value * 256 + b) % 4096 == value % 16 * 256 + b by {
      assert value == 16 * (value / 16) + value % 16;
      SameLowBits4096(value % 16 * 256 + b, value / 16);
    }
  }

  lemma LowBits(x: nat, m: nat)
    requires m == 256 || m == 1024 || m == 4096
    ensures x % U32_RANGE % m == x % m
  {
    var v, k := x % U32_RANGE, x / U32_RANGE;
    assert x == U32_RANGE * k + v;
    if m == 256 {
      SameLowBits256(v, 0x100_0000 * k);
    } else if m == 1024 {
      SameLowBits1024(v, 0x40_0000 * k);
    } else {
      SameLowBits4096(v, 0x10_0000 * k);
    }
  }

  lemma SameLowBits256(v: nat, k: nat)
    ensures (256 * k + v) % 256 == v % 256
  {
  }

  lemma SameLowBits1024(v: nat, k: nat)
    ensures (1024 * k + v) % 1024 == v % 1024
  {
  }

  lemma SameLowBits4096(v: nat, k: nat)
    ensures (4096 * k + v) % 4096 == v % 4096
  {
  }

  /** The six bits the printer picks out of the accumulator, or the last ones filled up with zeros. */
  function Padded(value: nat, numBits: int): (v: nat)
    requires 0 < numBits <= 12 && numBits % 2 == 0
    ensures v < 64
  {
    if numBits >= 6 then
      (if numBits == 6 then value else if numBits == 8 then value / 4
       else if numBits == 10 then value / 16 else value / 64) % 64
    else (if numBits == 2 then value * 16 else value * 4) % U32_RANGE % 64
  }

  /** The same after the printer has tried to read a byte and still has bits to print. */
  ghost predicate Loaded(data: seq<byte>, i: nat, o: nat, numBits: int, value: nat) {
    var q, r := o / 4, o % 4;
    && 1 <= i <= |data| && value < U32_RANGE
    && match numBits
       case 8 => r == 0 && i == 3 * q + 1 && value % 256 == data[i - 1]
       case 10 => r == 1 && i == 3 * q + 2 && value % 1024 == data[i - 2] as int % 4 * 256 + data[i - 1]
       case 12 => r == 2 && i == 3 * q + 3 && value % 4096 == data[i - 2] as int % 16 * 256 + data[i - 1]
       case 6 => r == 3 && i == 3 * q + 3 && value % 64 == data[i - 1] % 64
       case 2 => r == 1 && i == 3 * q + 1 == |data| && value % 4 == data[i - 1] % 4
       case 4 => r == 2 && i == 3 * q + 2 == |data| && value % 16 == data[i - 1] % 16
       case _ => false
  }

  lemma ReadByte(data: seq<byte>, i: nat, o: nat, numBits: int, value: nat)
    requires Progress(data, i, o, numBits, value) && numBits < 6 && i < |data|
    ensures Loaded(data, i + 1, o, numBits + 8, ShiftedIn(value, data[i]))
  {
    ShiftIn(value, data[i]);
  }

  lemma NothingRead(data: seq<byte>, i: nat, o: nat, numBits: int, value: nat)
    requires Progress(data, i, o, numBits, value) && (numBits >= 6 || i == |data|) && numBits > 0
    ensures Loaded(data, i, o, numBits, value)
  {
  }

  lemma Bits8(value: nat, b: nat)
    requires value % 256 == b
    ensures value / 4 % 64 == b / 4 && value % 4 == b % 4
  {
    var q := value / 256;
    assert value == 256 * q + b;
    assert value / 4 == 64 * q + b / 4;
  }

  lemma Bits10(value: nat, a: nat, b: nat)
    requires value % 1024 == a * 256 + b && a < 4 && b < 256
    ensures value / 16 % 64 == a * 16 + b / 16 && value % 16 == b % 16
  {
    var q := value / 1024;
    assert value == 1024 * q + (a * 256 + b);
    assert value / 16 == 64 * q + (a * 16 + b / 16);
  }

  lemma Bits12(value: nat, a: nat, b: nat)
    requires value % 4096 == a * 256 + b && a < 16 && b < 256
    ensures value / 64 % 64 == a * 4 + b / 64 && value % 64 == b % 64
  {
    var q := value / 4096;
    assert value == 4096 * q + (a * 256 + b);
    assert value / 64 == 64 * q + (a * 4 + b / 64);
  }

  /** The bits picked in a phase are those of the encoding's next character. */
  lemma PaddedIsNext(data: seq<byte>, i: nat, o: nat, numBits: int, value: nat)
    requires Loaded(data, i, o, numBits, value)
    ensures o < EncodedLength(|data|) && Digit(Padded(value, numBits)) == EncodedAt(data, o)
  {
    hide Digit;
    match numBits
    case 8 => Bits8(value, data[i - 1]);
    case 10 => Bits10(value, data[i - 2] as int % 4, data[i - 1]);
    case 12 => Bits12(value, data[i - 2] as int % 16, data[i - 1]);
    case 6 =>
    case 2 => ZeroFill(value, 16);
    case 4 => ZeroFill(value, 4);
  }

  /** And what is left of the accumulator is what the next character needs. */
  lemma LeftOver(data: seq<byte>, i: nat, o: nat, numBits: int, value: nat)
    requires Loaded(data, i, o, numBits, value)
    ensures Progress(data, i, o + 1, numBits - 6, value)
  {
    var q, r := o / 4, o % 4;
    NextPlace(o, q, r);
    match numBits
    case 8 => Bits8(value, data[i - 1]);
    case 10 => Bits10(value, data[i - 2] as int % 4, data[i - 1]);
    case 12 => Bits12(value, data[i - 2] as int % 16, data[i - 1]);
    case 6 =>
    case 2 => Remainder(q, 1);
    case 4 => Remainder(q, 2);
  }

  lemma NextPlace(o: nat, q: nat, r: nat)
    requires o == 4 * q + r && r < 4
    ensures (o + 1) / 4 == (if r < 3 then q else q + 1) && (o + 1) % 4 == if r < 3 then r + 1 else 0
  {
  }

  lemma Remainder(q: nat, r: nat)
    requires r < 3
    ensures (3 * q + r) % 3 == r
  {
  }

  /** With no bits left, only padding up to a multiple of four is missing. */
  lemma OnlyPadding(data: seq<byte>, i: nat, o: nat, numBits: int, value: nat)
    requires Progress(data, i, o, numBits, value) && (numBits >= 6 || i == |data|) && numBits <= 0
    ensures o % 4 != 0 ==>
              o < EncodedLength(|data|) && EncodedAt(data, o) == '=' && Progress(data, i, o + 1, numBits, value)
    ensures o % 4 == 0 ==> o == EncodedLength(|data|)
  {
  }

  lemma ZeroFill(value: nat, m: nat)
    requires m == 4 || m == 16
    ensures value * m % U32_RANGE % 64 == value % (64 / m) * m
  {
    var x := value * m;
    var v, k := x % U32_RANGE, x / U32_RANGE;
    assert x == 64 * (0x400_0000 * k) + v;
    SameLowBits64(v, 0x400_0000 * k);
    if m == 4 {
      assert x == 64 * (value / 16) + value % 16 * 4;
      SameLowBits64(value % 16 * 4, value / 16);
    } else {
      assert x == 64 * (value / 4) + value % 4 * 16;
      SameLowBits64(value % 4 * 16, value / 4);
    }
  }

  lemma SameLowBits64(v: nat, k: nat)
    ensures (64 * k + v) % 64 == v % 64
  {
  }

  /** The first o characters of the encoding are in place. */
  ghost predicate Written(dst: string, data: seq<byte>, o: nat) {
    o <= |dst| && o <= EncodedLength(|data|) && dst[..o] == Encoded(data)[..o]
  }

  /** dst has grown the next character, and nothing behind it but up to the end of the room has changed. */
  lemma WriteNext(dst: string, dst2: string, data: seq<byte>, o: nat)
    requires Written(dst, data, o) && o < |dst| && o < EncodedLength(|data|) && dst2 == dst[o := EncodedAt(data, o)]
    ensures Written(dst2, data, o + 1)
  {
    hide EncodedAt;
    var e := Encoded(data);
    assert e[o] == EncodedAt(data, o);
    assert dst2[..o + 1] == dst[..o] + [e[o]];
    assert e[..o + 1] == e[..o] + [e[o]];
  }

  /** str_base64. A buffer that is too small gets the beginning of the encoding. */
  method StrBase64(dst: array<char>, dstSize0: nat, data: seq<byte>)
    requires 1 <= dstSize0 <= dst.Length
    modifies dst
    ensures var n := Min(dstSize0 - 1, EncodedLength(|data|)); dst[..n] == Encoded(data)[..n] && dst[n] == '\0'
    ensures forall k :: dstSize0 <= k < dst.Length ==> dst[k] == old(dst[k])
  {
    var dstSize := dstSize0 - 1;
    var value: nat, numBits: int := 0, 0;
    var i, o := 0, 0;
    dst[dstSize] := '\0';
    assert Progress(data, i, o, numBits, value);
    assert Written(dst[..], data, 0);
    hide Progress, Loaded, Written, Encoded, EncodedAt, EncodedLength, Padded, ShiftedIn, Digit;
    while true
      invariant Progress(data, i, o, numBits, value) && i <= |data| && value < U32_RANGE
      invariant o <= dstSize && o <= EncodedLength(|data|)
      invariant Written(dst[..], data, o) && dst[dstSize] == '\0'
      invariant forall k :: dstSize0 <= k < dst.Length ==> dst[k] == old(dst[k])
      decreases EncodedLength(|data|) - o
    {
      ghost var was := dst[..];
      if numBits < 6 && i < |data| {
        ReadByte(data, i, o, numBits, value);
        value := ShiftedIn(value, data[i]);
        numBits := numBits + 8;
        i := i + 1;
      } else if numBits > 0 {
        NothingRead(data, i, o, numBits, value);
      } else {
        OnlyPadding(data, i, o, numBits, value);
      }
      if o == dstSize {
        WrittenIs(dst[..], data, o);
        return;
      }
      if numBits > 0 {
        PaddedIsNext(data, i, o, numBits, value);
        LeftOver(data, i, o, numBits, value);
        dst[o] := Digit(Padded(value, numBits));
        numBits := numBits - 6;
      } else if o % 4 != 0 {
        dst[o] := '=';
      } else {
        WrittenIs(dst[..], data, o);
        dst[o] := '\0';
        return;
      }
      WriteNext(was, dst[..], data, o);
      o := o + 1;
    }
  }

  lemma WrittenIs(dst: string, data: seq<byte>, o: nat)
    requires Written(dst, data, o)
    ensures o <= |dst| && o <= EncodedLength(|data|) && dst[..o] == Encoded(data)[..o]
  {
  }

  // ----- str_base64_decode -----

  datatype Outcome = Decoded(bytes: seq<byte>) | Failed(code: int)

  /** The last four characters may end in one or two padding characters. */
  function OutputBytes(c: string, last: bool): (n: nat)
    requires |c| == 4
    ensures 1 <= n <= 3
  {
    if last && c[3] == '=' then if c[2] == '=' then 1 else 2 else 3
  }

  /** The value of character k of a group of which n bytes are wanted; padding counts as zero. */
  function QuadDigit(c: string, n: nat, k: nat): int
    requires |c| == 4 && k < 4 && 1 <= n <= 3
  {
    if k > n then 0 else DigitValue(c[k])
  }

  /** The three bytes of a 24-bit value. */
  function ThreeBytesOf(value: nat): (b: seq<byte>)
    ensures |b| == 3
  {
    [value / 65536 % 256, value / 256 % 256, value % 256]
  }

  /** The first n bytes, which are all that may be nonzero. */
  function Kept(b: seq<byte>, n: nat): Outcome
    requires |b| == 3 && 1 <= n <= 3
  {
    if (n < 2 && b[1] != 0) || (n < 3 && b[2] != 0) then Failed(-2) else Decoded(b[..n])
  }

  function Quantum(c: string, last: bool): Outcome
    requires |c| == 4
  {
    var n := OutputBytes(c, last);
    var d0, d1, d2, d3 := QuadDigit(c, n, 0), QuadDigit(c, n, 1), QuadDigit(c, n, 2), QuadDigit(c, n, 3);
    if d0 == -1 || d1 == -1 || d2 == -1 || d3 == -1 then Failed(-1)
    else Kept(ThreeBytesOf(d0 * 262144 + d1 * 4096 + d2 * 64 + d3), n)
  }

  /** Group by group; what is left over of an incomplete group is refused. */
  function DecodeAll(s: string): Outcome
    decreases |s|
  {
    if s == [] then Decoded([])
    else if |s| < 4 then Failed(-3)
    else
      match Quantum(s[..4], |s| == 4)
      case Failed(code) => Failed(code)
      case Decoded(bytes) =>
        match DecodeAll(s[4..])
        case Failed(code) => Failed(code)
        case Decoded(rest) => Decoded(bytes + rest)
  }

  /** Four six-bit digits as three bytes. */
  lemma Regroup(d0: nat, d1: nat, d2: nat, d3: nat)
    requires d0 < 64 && d1 < 64 && d2 < 64 && d3 < 64
    ensures var value := d0 * 262144 + d1 * 4096 + d2 * 64 + d3;
            && value / 65536 % 256 == d0 * 4 + d1 / 16
            && value / 256 % 256 == d1 % 16 * 16 + d2 / 4
            && value % 256 == d2 % 4 * 64 + d3
  {
    var b0, b1, b2 := d0 * 4 + d1 / 16, d1 % 16 * 16 + d2 / 4, d2 % 4 * 64 + d3;
    assert d1 == 16 * (d1 / 16) + d1 % 16 && d2 == 4 * (d2 / 4) + d2 % 4;
    ThreeBytes(b0, b1, b2);
  }

  lemma ThreeBytes(b0: nat, b1: nat, b2: nat)
    requires b0 < 256 && b1 < 256 && b2 < 256
    ensures var value := b0 * 65536 + b1 * 256 + b2;
            value / 65536 % 256 == b0 && value / 256 % 256 == b1 && value % 256 == b2
  {
    Quotient(b0 * 256 + b1, b2, 256);
    Quotient(b0, b1 * 256 + b2, 65536);
    Quotient(b0, b1, 256);
  }

  lemma Quotient(q: nat, r: nat, m: nat)
    requires (m == 256 || m == 65536) && r < m
    ensures (q * m + r) / m == q && (q * m + r) % m == r
  {
  }

  /** The three bytes made of four six-bit digits. */
  function Join(d0: nat, d1: nat, d2: nat, d3: nat): (b: seq<byte>)
    requires d0 < 64 && d1 < 64 && d2 < 64 && d3 < 64
    ensures |b| == 3
  {
    [d0 * 4 + d1 / 16, d1 % 16 * 16 + d2 / 4, d2 % 4 * 64 + d3]
  }

  /** What a group of valid digits yields. */
  lemma QuantumOf(c: string, last: bool, d0: nat, d1: nat, d2: nat, d3: nat)
    requires |c| == 4 && d0 < 64 && d1 < 64 && d2 < 64 && d3 < 64
    requires var n := OutputBytes(c, last);
             && QuadDigit(c, n, 0) == d0 && QuadDigit(c, n, 1) == d1
             && QuadDigit(c, n, 2) == d2 && QuadDigit(c, n, 3) == d3
    ensures Quantum(c, last) == Kept(Join(d0, d1, d2, d3), OutputBytes(c, last))
  {
    hide DigitValue, QuadDigit, OutputBytes, ThreeBytesOf, Kept, Join;
    assert ThreeBytesOf(d0 * 262144 + d1 * 4096 + d2 * 64 + d3) == Join(d0, d1, d2, d3) by {
      JoinIs(d0, d1, d2, d3);
    }
  }

  lemma JoinIs(d0: nat, d1: nat, d2: nat, d3: nat)
    requires d0 < 64 && d1 < 64 && d2 < 64 && d3 < 64
    ensures ThreeBytesOf(d0 * 262144 + d1 * 4096 + d2 * 64 + d3) == Join(d0, d1, d2, d3)
  {
    Regroup(d0, d1, d2, d3);
  }

  /** The encoding of the first n of the joined bytes, when the dropped ones are zero, shows the digits. */
  lemma EncodedOfDigits(d0: nat, d1: nat, d2: nat, d3: nat, n: nat)
    requires d0 < 64 && d1 < 64 && d2 < 64 && d3 < 64 && 1 <= n <= 3
    requires (n < 2 ==> Join(d0, d1, d2, d3)[1] == 0) && (n < 3 ==> Join(d0, d1, d2, d3)[2] == 0)
    ensures Encoded(Join(d0, d1, d2, d3)[..n])
         == [Digit(d0), Digit(d1), if n >= 2 then Digit(d2) else '=', if n >= 3 then Digit(d3) else '=']
  {
    hide Digit, Encoded, Join;
    var b := Join(d0, d1, d2, d3);
    JoinedDigits(d0, d1, d2, d3, b);
    EncodedGroup(b, n);
  }

  /** The four characters for the first n of three bytes, the others being zero. */
  lemma EncodedGroup(b: seq<byte>, n: nat)
    requires |b| == 3 && 1 <= n <= 3 && (n < 2 ==> b[1] == 0) && (n < 3 ==> b[2] == 0)
    ensures var b0: nat, b1: nat, b2: nat := b[0], b[1], b[2];
            Encoded(b[..n]) == [Digit(b0 / 4), Digit(b0 % 4 * 16 + b1 / 16),
                                if n >= 2 then Digit(b1 % 16 * 4 + b2 / 64) else '=',
                                if n >= 3 then Digit(b2 % 64) else '=']
  {
    hide Digit;
    var s := b[..n];
    assert ByteOrZero(s, 0) == b[0] && ByteOrZero(s, 1) == b[1] && ByteOrZero(s, 2) == b[2];
    assert Encoded(s)[0] == EncodedAt(s, 0);
    assert Encoded(s)[1] == EncodedAt(s, 1);
    assert Encoded(s)[2] == EncodedAt(s, 2);
    assert Encoded(s)[3] == EncodedAt(s, 3);
  }

  /** Three bytes made of six-bit digits give the digits back. */
  lemma SixBits(d0: nat, d1: nat, d2: nat, d3: nat)
    requires d0 < 64 && d1 < 64 && d2 < 64 && d3 < 64
    ensures var b0, b1, b2 := d0 * 4 + d1 / 16, d1 % 16 * 16 + d2 / 4, d2 % 4 * 64 + d3;
            b0 / 4 == d0 && b0 % 4 * 16 + b1 / 16 == d1 && b1 % 16 * 4 + b2 / 64 == d2 && b2 % 64 == d3
  {
  }

  lemma JoinedDigits(d0: nat, d1: nat, d2: nat, d3: nat, b: seq<byte>)
    requires d0 < 64 && d1 < 64 && d2 < 64 && d3 < 64 && b == Join(d0, d1, d2, d3)
    ensures var b0: nat, b1: nat, b2: nat := b[0], b[1], b[2];
            b0 / 4 == d0 && b0 % 4 * 16 + b1 / 16 == d1 && b1 % 16 * 4 + b2 / 64 == d2 && b2 % 64 == d3
  {
    SixBits(d0, d1, d2, d3);
  }

  /** And any three bytes are made of four digits. */
  lemma DigitsOf(b0: byte, b1: byte, b2: byte) returns (d0: nat, d1: nat, d2: nat, d3: nat)
    ensures d0 < 64 && d1 < 64 && d2 < 64 && d3 < 64 && Join(d0, d1, d2, d3) == [b0, b1, b2]
    ensures (b2 == 0 ==> d3 == 0) && (b1 == b2 == 0 ==> d2 == 0)
  {
    var x0: nat, x1: nat, x2: nat := b0, b1, b2;
    d0, d1, d2, d3 := x0 / 4, x0 % 4 * 16 + x1 / 16, x1 % 16 * 4 + x2 / 64, x2 % 64;
    SplitDigit(x0 % 4, x1 / 16, 16);
    SplitDigit(x1 % 16, x2 / 64, 4);
  }

  lemma SplitDigit(high: nat, low: nat, m: nat)
    requires low < m && (m == 4 || m == 16)
    ensures (high * m + low) / m == high && (high * m + low) % m == low
  {
  }

  /** A group that is accepted is the encoding of the bytes it yields. */
  lemma QuantumSound(c: string, last: bool)
    requires |c| == 4 && Quantum(c, last).Decoded?
    ensures var b := Quantum(c, last).bytes;
            1 <= |b| <= 3 && (|b| < 3 ==> last) && Encoded(b) == c
  {
    var n := OutputBytes(c, last);
    var d0, d1, d2, d3 := QuadDigit(c, n, 0), QuadDigit(c, n, 1), QuadDigit(c, n, 2), QuadDigit(c, n, 3);
    assert d0 >= 0 && d1 >= 0 && d2 >= 0 && d3 >= 0;
    QuantumOf(c, last, d0, d1, d2, d3);
    hide Quantum, DigitValue, Digit, Encoded, Join;
    EncodedOfDigits(d0, d1, d2, d3, n);
    ShowsDigits(c, last, n, d0, d1, d2, d3);
  }

  lemma ShowsDigits(c: string, last: bool, n: nat, d0: nat, d1: nat, d2: nat, d3: nat)
    requires |c| == 4 && n == OutputBytes(c, last) && d0 < 64 && d1 < 64 && d2 < 64 && d3 < 64
    requires QuadDigit(c, n, 0) == d0 && QuadDigit(c, n, 1) == d1
    requires QuadDigit(c, n, 2) == d2 && QuadDigit(c, n, 3) == d3
    ensures c == [Digit(d0), Digit(d1), if n >= 2 then Digit(d2) else '=', if n >= 3 then Digit(d3) else '=']
    ensures n < 3 ==> last
  {
    hide DigitValue, Digit;
  }

  /** The encoding of up to three bytes is accepted and yields them. */
  lemma QuantumComplete(b: seq<byte>, last: bool)
    requires 1 <= |b| <= 3 && (|b| < 3 ==> last)
    ensures |Encoded(b)| == 4 && Quantum(Encoded(b), last) == Decoded(b)
  {
    hide Quantum, DigitValue, Digit, Join, EncodedAt;
    var d0, d1, d2, d3 := DigitsOf(b[0], ByteOrZero(b, 1), ByteOrZero(b, 2));
    assert Join(d0, d1, d2, d3)[..|b|] == b;
    EncodedOfDigits(d0, d1, d2, d3, |b|);
    DigitValueOfDigit(d0);
    DigitValueOfDigit(d1);
    DigitValueOfDigit(d2);
    DigitValueOfDigit(d3);
    QuantumOf(Encoded(b), last, d0, d1, d2, d3);
  }

  /** Whole groups are encoded independently of what follows. */
  lemma EncodedConcat(a: seq<byte>, b: seq<byte>)
    requires |a| % 3 == 0
    ensures Encoded(a + b) == Encoded(a) + Encoded(b)
  {
    hide Digit;
    var k := |a| / 3;
    forall o | 0 <= o < EncodedLength(|a + b|)
      ensures EncodedAt(a + b, o) == if o < 4 * k then EncodedAt(a, o) else EncodedAt(b, o - 4 * k)
    {
      if o >= 4 * k {
        assert (o - 4 * k) / 4 == o / 4 - k && (o - 4 * k) % 4 == o % 4;
      }
    }
  }

  /** The parser accepts exactly the canonical encodings, and returns what they encode. */
  lemma {:induction false} DecodesIffEncoded(s: string, d: seq<byte>)
    ensures DecodeAll(s) == Decoded(d) <==> s == Encoded(d)
    decreases |s|
  {
    hide Quantum, EncodedAt;
    if |s| >= 4 {
      var head, tail := s[..4], s[4..];
      assert s == head + tail;
      if DecodeAll(s) == Decoded(d) {
        var b, rest := Quantum(head, |s| == 4).bytes, DecodeAll(tail).bytes;
        QuantumSound(head, |s| == 4);
        DecodesIffEncoded(tail, rest);
        if |b| == 3 {
          EncodedConcat(b, rest);
        } else {
          assert tail == [] && rest == [] && d == b;
        }
      }
      if s == Encoded(d) {
        var n := Min(3, |d|);
        var b, rest := d[..n], d[n..];
        assert d == b + rest;
        if n == 3 {
          EncodedConcat(b, rest);
        } else {
          assert b == d && Encoded(rest) == [];
        }
        assert s == Encoded(b) + Encoded(rest);
        QuantumComplete(b, |s| == 4);
        assert head == Encoded(b) && tail == Encoded(rest);
        DecodesIffEncoded(tail, rest);
      }
    }
  }

  /** Decoding an encoding gives the bytes back. */
  lemma RoundTrip(data: seq<byte>)
    ensures DecodeAll(Encoded(data)) == Decoded(data)
  {
    DecodesIffEncoded(Encoded(data), data);
  }

  /** str_base64_decode. */
  method StrBase64Decode(dst: array<byte>, dstSize: nat, data: string) returns (r: int)
    requires dstSize <= dst.Length
    modifies dst
    ensures r < 0 || r <= dst.Length
    ensures |data| % 4 != 0 ==> r == -3
    ensures |data| % 4 == 0 && |data| / 4 * 3 > dstSize ==> r == -2
    ensures |data| % 4 == 0 && |data| / 4 * 3 <= dstSize ==>
              match DecodeAll(data)
              case Failed(code) => r == code
              case Decoded(bytes) => r == |bytes| && dst[..r] == bytes
    ensures r >= 0 ==> data == Encoded(dst[..r])
    ensures r < 0 && |data| % 4 == 0 && |data| / 4 * 3 <= dstSize ==> forall d :: data != Encoded(d)
    ensures forall k :: dstSize <= k < dst.Length ==> dst[k] == old(dst[k])
  {
    hide Quantum, Encoded, DecodeAll;
    if |data| % 4 != 0 {
      return -3;
    }
    if |data| / 4 * 3 > dstSize {
      return -2;
    }
    r := DecodeGroups(dst, dstSize, data, |data| / 4);
    forall d
      ensures DecodeAll(data) == Decoded(d) <==> data == Encoded(d)
    {
      DecodesIffEncoded(data, d);
    }
  }

  function Prepend(front: seq<byte>, rest: Outcome): Outcome {
    match rest
    case Failed(code) => rest
    case Decoded(bytes) => Decoded(front + bytes)
  }

  /** The groups before position i have given done, and the rest of data decides the result. */
  ghost predicate SoFar(data: string, i: nat, done: seq<byte>) {
    i <= |data| && DecodeAll(data) == Prepend(done, DecodeAll(data[i..]))
  }

  lemma Start(data: string)
    ensures SoFar(data, 0, [])
  {
    hide DecodeAll;
    var all := DecodeAll(data);
    assert data[0..] == data;
    if all.Decoded? {
      assert [] + all.bytes == all.bytes;
    }
  }

  lemma Finish(data: string, done: seq<byte>)
    requires SoFar(data, |data|, done)
    ensures DecodeAll(data) == Decoded(done)
  {
    assert data[|data|..] == [];
    assert done + [] == done;
  }

  /** One more group decoded. */
  lemma GroupStep(data: string, i: nat, done: seq<byte>)
    requires i + 4 <= |data| && SoFar(data, i, done)
    ensures match Quantum(data[i..i + 4], i == |data| - 4)
            case Failed(code) => DecodeAll(data) == Failed(code)
            case Decoded(bytes) => SoFar(data, i + 4, done + bytes)
  {
    hide Quantum, DecodeAll;
    var rest, group := data[i..], data[i..i + 4];
    assert rest[..4] == group && rest[4..] == data[i + 4..];
    DecodeStep(rest);
    var q := Quantum(group, i == |data| - 4);
    if q.Decoded? {
      PrependTwice(done, q.bytes, DecodeAll(data[i + 4..]));
    }
  }

  lemma PrependTwice(a: seq<byte>, b: seq<byte>, rest: Outcome)
    ensures Prepend(a, Prepend(b, rest)) == Prepend(a + b, rest)
  {
    if rest.Decoded? {
      assert a + (b + rest.bytes) == (a + b) + rest.bytes;
    }
  }

  lemma DecodeStep(s: string)
    requires |s| >= 4
    ensures match Quantum(s[..4], |s| == 4)
            case Failed(code) => DecodeAll(s) == Failed(code)
            case Decoded(bytes) => DecodeAll(s) == Prepend(bytes, DecodeAll(s[4..]))
  {
    hide Quantum;
  }

  /** The group loop of str_base64_decode. */
  method DecodeGroups(dst: array<byte>, dstSize: nat, data: string, ghost m: nat) returns (r: int)
    requires |data| == 4 * m && 3 * m <= dstSize <= dst.Length
    modifies dst
    ensures r < 0 || r <= dst.Length
    ensures match DecodeAll(data)
            case Failed(code) => r == code < 0
            case Decoded(bytes) => r == |bytes| && dst[..r] == bytes
    ensures forall k :: dstSize <= k < dst.Length ==> dst[k] == old(dst[k])
  {
    hide Quantum, DecodeAll, SoFar;
    var i, o: nat := 0, 0;
    ghost var g: nat, done: seq<byte> := 0, [];
    Start(data);
    while i < |data|
      invariant i == 4 * g <= |data| && o <= 3 * g
      invariant dst[..o] == done && SoFar(data, i, done)
      invariant forall k :: dstSize <= k < dst.Length ==> dst[k] == old(dst[k])
    {
      var copy, last := data[i..i + 4], i == |data| - 4;
      GroupStep(data, i, done);
      var err, n := StoreQuantum(dst, dstSize, o, copy, last);
      if err != 0 {
        return err;
      }
      done := done + dst[o..o + n];
      i := i + 4;
      o := o + n;
      g := g + 1;
    }
    Finish(data, done);
    return o;
  }

  /** The loop body: one group of four characters becomes up to three bytes of dst. */
  method StoreQuantum(dst: array<byte>, dstSize: nat, o: nat, copy0: string, last: bool) returns (err: int, n: nat)
    requires |copy0| == 4 && o + 3 <= dstSize <= dst.Length
    modifies dst
    ensures match Quantum(copy0, last)
            case Failed(code) => err == code < 0
            case Decoded(bytes) => err == 0 && n == |bytes| <= 3 && dst[o..o + n] == bytes
    ensures n <= 3
    ensures forall k :: 0 <= k < o || dstSize <= k < dst.Length ==> dst[k] == old(dst[k])
  {
    hide DigitValue;
    var copy, numOutputBytes := copy0, 3;
    if last {
      if copy[3] == '=' {
        copy := copy[3 := 'A'];
        numOutputBytes := 2;
        if copy[2] == '=' {
          copy := copy[2 := 'A'];
          numOutputBytes := 1;
        }
      }
    }
    DigitValueOfDigit(0);
    assert DigitValue('A') == 0;
    var d0, d1, d2, d3 := DigitValue(copy[0]), DigitValue(copy[1]), DigitValue(copy[2]), DigitValue(copy[3]);
    if d0 == -1 || d1 == -1 || d2 == -1 || d3 == -1 {
      return -1, 0;
    }
    var value := d0 * 262144 + d1 * 4096 + d2 * 64 + d3;
    n := 0;
    for b := 0 to 3
      invariant n == Min(b, numOutputBytes)
      invariant dst[o..o + n] == [value / 65536 % 256, value / 256 % 256, value % 256][..n]
      invariant b >= 2 && numOutputBytes < 2 ==> value / 256 % 256 == 0
      invariant b >= 3 && numOutputBytes < 3 ==> value % 256 == 0
      invariant forall k :: 0 <= k < o || dstSize <= k < dst.Length ==> dst[k] == old(dst[k])
    {
      var byteValue := if b == 0 then value / 65536 % 256 else if b == 1 then value / 256 % 256 else value % 256;
      if b < numOutputBytes {
        dst[o + n] := byteValue;
        n := n + 1;
      } else {
        if byteValue != 0 {
          return -2, n;
        }
      }
    }
    return 0, n;
  }
}
