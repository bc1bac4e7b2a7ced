/** Number printing as printf's %d and %x do it for the non-negative values the sources pass. */
module Text {
  import opened Bytes

  function DigitChar(d: nat): (c: char)
    requires d < 16
    ensures d < 10 ==> '0' <= c <= '9'
  {
    if d < 10 then '0' + d as char else 'a' + (d - 10) as char
  }

  function Digits(n: nat, radix: nat): (s: string)
    requires 2 <= radix <= 16
    ensures |s| > 0
    decreases n
  {
    if n < radix then [DigitChar(n)] else Digits(n / radix, radix) + [DigitChar(n % radix)]
  }

  function Decimal(n: nat): string {
    Digits(n, 10)
  }

  function Hex(n: nat): string {
    Digits(n, 16)
  }

  /** What a digit is worth in some radix up to 16, or -1. */
  function DigitOf(c: char): (d: int)
    ensures -1 <= d < 16
  {
    if '0' <= c <= '9' then c as int - '0' as int
    else if 'a' <= c <= 'f' then c as int - 'a' as int + 10
    else if 'A' <= c <= 'F' then c as int - 'A' as int + 10
    else -1
  }

  predicate AllDigits(s: string, radix: nat) {
    forall i :: 0 <= i < |s| ==> 0 <= DigitOf(s[i]) < radix
  }

  /** The number a string of digits stands for. */
  function Value(s: string, radix: nat): nat
    requires AllDigits(s, radix)
  {
    if s == [] then 0 else Value(s[..|s| - 1], radix) * radix + DigitOf(s[|s| - 1])
  }

  lemma DigitOfChar(d: nat)
    requires d < 16
    ensures DigitOf(DigitChar(d)) == d
  {
  }

  lemma ValueSnoc(front: string, c: char, radix: nat)
    requires AllDigits(front, radix) && 0 <= DigitOf(c) < radix
    ensures AllDigits(front + [c], radix) && Value(front + [c], radix) == Value(front, radix) * radix + DigitOf(c)
  {
    hide DigitOf;
    var s := front + [c];
    assert s[..|s| - 1] == front;
  }

  /** A printed number reads back. */
  lemma {:induction false} ValueOfDigits(n: nat, radix: nat)
    requires 2 <= radix <= 16
    ensures AllDigits(Digits(n, radix), radix) && Value(Digits(n, radix), radix) == n
    decreases n
  {
    hide DigitOf, DigitChar, AllDigits, Value;
    if n < radix {
      DigitOfChar(n);
      NoDigits(radix);
      ValueSnoc([], DigitChar(n), radix);
      assert [] + [DigitChar(n)] == [DigitChar(n)];
      assert 0 * radix == 0;
    } else {
      ValueOfDigits(n / radix, radix);
      DigitOfChar(n % radix);
      ValueSnoc(Digits(n / radix, radix), DigitChar(n % radix), radix);
      DivMod(n, radix);
    }
  }

  lemma NoDigits(radix: nat)
    ensures AllDigits([], radix) && Value([], radix) == 0
  {
  }

  lemma DivMod(n: nat, m: nat)
    requires m > 0
    ensures n / m * m + n % m == n && n % m < m
  {
  }

  /** Lower-case digits, and no leading zero but for the number zero. */
  predicate PrintedStyle(s: string, zero: bool) {
    && s != [] && (forall i :: 0 <= i < |s| ==> '0' <= s[i] <= '9' || 'a' <= s[i] <= 'f')
    && (s[0] == '0' <==> zero) && (zero ==> |s| == 1)
  }

  /** What printf's digits look like. */
  lemma {:induction false} DigitsStyle(n: nat, radix: nat)
    requires 2 <= radix <= 16
    ensures PrintedStyle(Digits(n, radix), n == 0)
    decreases n
  {
    hide DigitChar, PrintedStyle;
    if n < radix {
      OneDigitStyle(n);
    } else {
      DivMod(n, radix);
      AtLeastOne(n, radix);
      DigitsStyle(n / radix, radix);
      MoreDigitsStyle(Digits(n / radix, radix), n % radix);
    }
  }

  lemma OneDigitStyle(d: nat)
    requires d < 16
    ensures PrintedStyle([DigitChar(d)], d == 0)
  {
    DigitCharStyle(d);
  }

  lemma MoreDigitsStyle(front: string, d: nat)
    requires PrintedStyle(front, false) && d < 16
    ensures PrintedStyle(front + [DigitChar(d)], false)
  {
    hide DigitChar;
    DigitCharStyle(d);
  }

  lemma DigitCharStyle(d: nat)
    requires d < 16
    ensures '0' <= DigitChar(d) <= '9' || 'a' <= DigitChar(d) <= 'f'
    ensures DigitChar(d) == '0' <==> d == 0
  {
  }

  lemma AtLeastOne(n: nat, m: nat)
    requires 0 < m <= n
    ensures n / m > 0
  {
    DivMod(n, m);
  }

  function Power(b: nat, e: nat): nat {
    if e == 0 then 1 else Power(b, e - 1) * b
  }

  lemma {:induction false} DigitsAtMost(n: nat, radix: nat, k: nat)
    requires 2 <= radix <= 16 && k >= 1 && n < Power(radix, k)
    ensures |Digits(n, radix)| <= k
    decreases k
  {
    if n >= radix {
      assert Power(radix, 1) == Power(radix, 0) * radix == radix;
      QuotientBelow(n, radix, Power(radix, k - 1));
      DigitsAtMost(n / radix, radix, k - 1);
    }
  }

  lemma QuotientBelow(n: nat, m: nat, bound: nat)
    requires m > 0 && n < bound * m
    ensures n / m < bound
  {
    DivMod(n, m);
    if n / m >= bound {
      Times(bound, n / m, m);
    }
  }

  lemma Times(a: nat, b: nat, m: nat)
    requires a <= b
    ensures a * m <= b * m
  {
  }

  lemma {:induction false} ValueBelow(s: string, radix: nat)
    requires AllDigits(s, radix)
    ensures Value(s, radix) < Power(radix, |s|)
    decreases |s|
  {
    hide DigitOf;
    if s != [] {
      ValueBelow(s[..|s| - 1], radix);
      CarryBelow(Value(s[..|s| - 1], radix), DigitOf(s[|s| - 1]), radix, Power(radix, |s| - 1));
    }
  }

  lemma CarryBelow(v: nat, d: nat, m: nat, p: nat)
    requires v < p && d < m
    ensures v * m + d < p * m
  {
    Times(v + 1, p, m);
    assert (v + 1) * m == v * m + m;
  }

  /** str_isnum. */
  predicate IsNum(c: char) {
    '0' <= c <= '9'
  }

  /** Leading decimal digits. */
  function DigitRun(s: string): (n: nat)
    ensures n <= |s| && AllDigits(s[..n], 10) && (n < |s| ==> !IsNum(s[n]))
  {
    if s == [] || !IsNum(s[0]) then 0
    else
      var n := 1 + DigitRun(s[1..]);
      assert s[..n] == [s[0]] + s[1..][..n - 1];
      n
  }

  predicate StartsWithDigit(s: string) {
    s != [] && IsNum(s[0])
  }

  lemma {:induction false} DigitRunIs(t: string, rest: string)
    requires AllDigits(t, 10) && !StartsWithDigit(rest)
    ensures DigitRun(t + rest) == |t|
    decreases |t|
  {
    if t == [] {
      assert t + rest == rest;
    } else {
      assert (t + rest)[1..] == t[1..] + rest;
      assert 0 <= DigitOf(t[0]) < 10;
      DigitRunIs(t[1..], rest);
    }
  }

  lemma RunDigit(t: string, k: nat)
    requires k < DigitRun(t)
    ensures IsNum(t[k])
  {
    hide Value;
    var run := t[..DigitRun(t)];
    assert run[k] == t[k] && 0 <= DigitOf(run[k]) < 10;
  }

  /** The bytes of a string of ASCII characters. */
  function Ascii(s: string): (b: seq<byte>)
    ensures |b| == |s|
  {
    seq(|s|, i requires 0 <= i < |s| => s[i] as int % 256)
  }
}
