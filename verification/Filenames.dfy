/** Natural-order comparison of file names. */
module Filenames {
  import opened Text

  /** A string of bytes in front of its terminator. */
  predicate CString(s: string) {
    forall i :: 0 <= i < |s| ==> 0 < s[i] as int < 256
  }

  /** The value of a char, a type that is signed on some platforms and not on others. */
  function CharValue(c: char, signed: bool): (v: int)
    ensures (v - c as int) % 256 == 0 && (c as int < 256 ==> if signed then -128 <= v < 128 else 0 <= v < 256)
  {
    if signed && c as int >= 128 then c as int - 256 else c as int
  }

  /** tolower of the C locale: only the letters of ASCII change. */
  function ToLower(c: char, signed: bool): int {
    if 'A' <= c <= 'Z' then c as int + 32 else CharValue(c, signed)
  }

  /** Case is all that lower-casing removes. */
  lemma SameLetter(c: char, d: char, signed: bool)
    requires c as int < 256 && d as int < 256
    ensures ToLower(c, signed) == ToLower(d, signed) <==>
              || c == d
              || ('A' <= c <= 'Z' && d as int == c as int + 32)
              || ('A' <= d <= 'Z' && c as int == d as int + 32)
  {
  }

  function Sign(x: int): int {
    if x < 0 then -1 else if x == 0 then 0 else 1
  }

  // ----- the order: names as lists of letters and numbers -----

  datatype Token = Letter(code: int) | Digits(run: string)

  function Tokens(s: string, signed: bool): (ts: seq<Token>)
    decreases |s|
  {
    if s == [] then []
    else if IsNum(s[0]) then
      var n := DigitRun(s);
      assert n > 0;
      [Digits(s[..n])] + Tokens(s[n..], signed)
    else [Letter(ToLower(s[0], signed))] + Tokens(s[1..], signed)
  }

  /** No letter looks like a digit. */
  predicate Proper(t: Token) {
    match t
    case Letter(code) => code < '0' as int || code > '9' as int
    case Digits(run) => true
  }

  /** What a name is compared with when the other one goes on: the terminator. */
  const END := Letter(0)

  /** Tokens as Tokens makes them of a string. */
  predicate AllProper(ts: seq<Token>) {
    forall i :: 0 <= i < |ts| ==> Proper(ts[i]) && ts[i] != END
  }

  /** The first difference of two equally long strings. */
  function FirstDifference(x: string, y: string): int
    requires |x| == |y|
  {
    if x == [] then 0
    else if x[0] != y[0] then x[0] as int - y[0] as int
    else FirstDifference(x[1..], y[1..])
  }

  /** Numbers are ordered by length and then by digits; among letters they stand where the digits do. */
  function CompareTokens(x: Token, y: Token): (r: int)
    ensures -1 <= r <= 1
  {
    match (x, y)
    case (Letter(c), Letter(d)) => Sign(c - d)
    case (Letter(c), Digits(_)) => Sign(c - '0' as int)
    case (Digits(_), Letter(d)) => Sign('0' as int - d)
    case (Digits(r), Digits(q)) => if |r| != |q| then Sign(|r| - |q|) else Sign(FirstDifference(r, q))
  }

  function Head(ts: seq<Token>): Token {
    if ts == [] then END else ts[0]
  }

  function CompareLists(xs: seq<Token>, ys: seq<Token>): (r: int)
    ensures -1 <= r <= 1
  {
    if xs == [] || ys == [] || CompareTokens(xs[0], ys[0]) != 0 then CompareTokens(Head(xs), Head(ys))
    else CompareLists(xs[1..], ys[1..])
  }

  function Compare(a: string, b: string, signed: bool): (r: int)
    ensures -1 <= r <= 1
  {
    CompareLists(Tokens(a, signed), Tokens(b, signed))
  }

  // ----- it is a total preorder -----

  lemma {:induction false} DifferenceFlips(x: string, y: string)
    requires |x| == |y|
    ensures FirstDifference(x, y) == -FirstDifference(y, x)
    ensures FirstDifference(x, y) == 0 <==> x == y
    decreases |x|
  {
    if x != [] {
      DifferenceFlips(x[1..], y[1..]);
      assert x == [x[0]] + x[1..] && y == [y[0]] + y[1..];
    }
  }

  lemma {:induction false} DifferenceTransitive(x: string, y: string, z: string)
    requires |x| == |y| == |z| && FirstDifference(x, y) <= 0 && FirstDifference(y, z) <= 0
    ensures FirstDifference(x, z) <= 0
    ensures FirstDifference(x, y) < 0 || FirstDifference(y, z) < 0 ==> FirstDifference(x, z) < 0
    decreases |x|
  {
    if x != [] && x[0] == y[0] == z[0] {
      DifferenceTransitive(x[1..], y[1..], z[1..]);
    }
  }

  lemma TokensFlip(x: Token, y: Token)
    requires Proper(x) && Proper(y)
    ensures CompareTokens(x, y) == -CompareTokens(y, x)
    ensures CompareTokens(x, y) == 0 <==> x == y
  {
    if x.Digits? && y.Digits? && |x.run| == |y.run| {
      DifferenceFlips(x.run, y.run);
    }
  }

  lemma TokensTransitive(x: Token, y: Token, z: Token)
    requires Proper(x) && Proper(y) && Proper(z) && CompareTokens(x, y) <= 0 && CompareTokens(y, z) <= 0
    ensures CompareTokens(x, z) <= 0
    ensures CompareTokens(x, y) < 0 || CompareTokens(y, z) < 0 ==> CompareTokens(x, z) < 0
  {
    if x.Digits? && y.Digits? && z.Digits? && |x.run| == |y.run| == |z.run| {
      DifferenceTransitive(x.run, y.run, z.run);
    }
  }

  lemma {:induction false} ListsFlip(xs: seq<Token>, ys: seq<Token>)
    requires AllProper(xs) && AllProper(ys)
    ensures CompareLists(xs, ys) == -CompareLists(ys, xs)
    ensures CompareLists(xs, ys) == 0 <==> xs == ys
    decreases |xs|
  {
    assert Proper(END);
    hide CompareTokens, Proper;
    TokensFlip(Head(xs), Head(ys));
    if xs != [] && ys != [] {
      ListsFlip(xs[1..], ys[1..]);
      assert xs == [xs[0]] + xs[1..] && ys == [ys[0]] + ys[1..];
    }
  }

  lemma {:induction false} ListsTransitive(xs: seq<Token>, ys: seq<Token>, zs: seq<Token>)
    requires AllProper(xs) && AllProper(ys) && AllProper(zs) && CompareLists(xs, ys) <= 0 && CompareLists(ys, zs) <= 0
    ensures CompareLists(xs, zs) <= 0
    ensures CompareLists(xs, ys) < 0 || CompareLists(ys, zs) < 0 ==> CompareLists(xs, zs) < 0
    decreases |xs|
  {
    assert Proper(END);
    hide CompareTokens, Proper;
    TokensFlip(Head(xs), Head(ys));
    TokensFlip(Head(ys), Head(zs));
    TokensFlip(Head(xs), Head(zs));
    TokensTransitive(Head(xs), Head(ys), Head(zs));
    if xs != [] && ys != [] && zs != [] && xs[0] == ys[0] == zs[0] {
      ListsTransitive(xs[1..], ys[1..], zs[1..]);
    }
  }

  lemma {:induction false} TokensProper(s: string, signed: bool)
    requires CString(s)
    ensures AllProper(Tokens(s, signed))
    decreases |s|
  {
    if s != [] {
      TokensProper(if IsNum(s[0]) then s[DigitRun(s)..] else s[1..], signed);
    }
  }

  /** Swapping the names swaps the sign, so any two names are comparable. */
  lemma CompareFlips(a: string, b: string, signed: bool)
    requires CString(a) && CString(b)
    ensures Compare(a, b, signed) == -Compare(b, a, signed)
  {
    hide Tokens, CompareLists;
    TokensProper(a, signed);
    TokensProper(b, signed);
    ListsFlip(Tokens(a, signed), Tokens(b, signed));
  }

  lemma CompareTransitive(a: string, b: string, c: string, signed: bool)
    requires CString(a) && CString(b) && CString(c) && Compare(a, b, signed) <= 0 && Compare(b, c, signed) <= 0
    ensures Compare(a, c, signed) <= 0
    ensures Compare(a, b, signed) < 0 || Compare(b, c, signed) < 0 ==> Compare(a, c, signed) < 0
  {
    hide Tokens, CompareLists;
    TokensProper(a, signed);
    TokensProper(b, signed);
    TokensProper(c, signed);
    ListsTransitive(Tokens(a, signed), Tokens(b, signed), Tokens(c, signed));
  }

  function Lower(s: string, signed: bool): (t: seq<int>)
    ensures |t| == |s|
  {
    seq(|s|, i requires 0 <= i < |s| => ToLower(s[i], signed))
  }

  /** Names compare equal exactly when they differ in case only. */
  lemma CompareZero(a: string, b: string, signed: bool)
    requires CString(a) && CString(b)
    ensures Compare(a, b, signed) == 0 <==> Lower(a, signed) == Lower(b, signed)
  {
    hide Tokens, CompareLists, Lower;
    TokensProper(a, signed);
    TokensProper(b, signed);
    ListsFlip(Tokens(a, signed), Tokens(b, signed));
    TokensLower(a, b, signed);
  }

  lemma {:induction false} TokensLower(a: string, b: string, signed: bool)
    requires CString(a) && CString(b)
    ensures Tokens(a, signed) == Tokens(b, signed) <==> Lower(a, signed) == Lower(b, signed)
    decreases |a|
  {
    if a == [] || b == [] {
      assert Lower(a, signed) == Lower(b, signed) <==> |a| == |b|;
    } else {
      var n, m := if IsNum(a[0]) then DigitRun(a) else 1, if IsNum(b[0]) then DigitRun(b) else 1;
      TokensLower(a[n..], b[m..], signed);
      if Tokens(a, signed) == Tokens(b, signed) {
        SameTokens(a, b, n, m, signed);
      }
      if Lower(a, signed) == Lower(b, signed) {
        SameLower(a, b, n, m, signed);
      }
    }
  }

  lemma SameTokens(a: string, b: string, n: nat, m: nat, signed: bool)
    requires CString(a) && CString(b) && a != [] && b != [] && Tokens(a, signed) == Tokens(b, signed)
    requires n == (if IsNum(a[0]) then DigitRun(a) else 1) && m == if IsNum(b[0]) then DigitRun(b) else 1
    requires Tokens(a[n..], signed) == Tokens(b[m..], signed) <==> Lower(a[n..], signed) == Lower(b[m..], signed)
    ensures Lower(a, signed) == Lower(b, signed)
  {
    hide Lower, DigitRun;
    assert Tokens(a, signed)[0] == Tokens(b, signed)[0] && Tokens(a, signed)[1..] == Tokens(b, signed)[1..];
    LowerSplit(a, n, signed);
    LowerSplit(b, m, signed);
    if !IsNum(a[0]) {
      LowerOne(a, signed);
      LowerOne(b, signed);
    }
  }

  lemma LowerSplit(s: string, n: nat, signed: bool)
    requires n <= |s|
    ensures Lower(s, signed) == Lower(s[..n], signed) + Lower(s[n..], signed)
  {
  }

  lemma LowerOne(s: string, signed: bool)
    requires s != []
    ensures Lower(s[..1], signed) == [ToLower(s[0], signed)]
  {
  }

  lemma SameCharacters(a: string, b: string, signed: bool)
    requires CString(a) && CString(b) && Lower(a, signed) == Lower(b, signed)
    ensures |a| == |b| && forall i :: 0 <= i < |a| ==> ToLower(a[i], signed) == ToLower(b[i], signed)
    ensures forall i :: 0 <= i < |a| ==> (IsNum(a[i]) <==> IsNum(b[i])) && (IsNum(a[i]) ==> a[i] == b[i])
  {
    forall i | 0 <= i < |a|
      ensures ToLower(a[i], signed) == ToLower(b[i], signed)
    {
      assert Lower(a, signed)[i] == Lower(b, signed)[i];
    }
  }

  lemma SameLower(a: string, b: string, n: nat, m: nat, signed: bool)
    requires CString(a) && CString(b) && a != [] && b != [] && Lower(a, signed) == Lower(b, signed)
    requires n == (if IsNum(a[0]) then DigitRun(a) else 1) && m == if IsNum(b[0]) then DigitRun(b) else 1
    requires Tokens(a[n..], signed) == Tokens(b[m..], signed) <==> Lower(a[n..], signed) == Lower(b[m..], signed)
    ensures Tokens(a, signed) == Tokens(b, signed)
  {
    hide Lower, ToLower, CString, DigitRun;
    SameCharacters(a, b, signed);
    if IsNum(a[0]) {
      SameRun(a, b);
      assert a[..n] == b[..n];
    }
    LowerDrop(a, n, signed);
    LowerDrop(b, n, signed);
  }

  lemma LowerDrop(s: string, n: nat, signed: bool)
    requires n <= |s|
    ensures Lower(s[n..], signed) == Lower(s, signed)[n..]
  {
  }

  lemma {:induction false} SameRun(a: string, b: string)
    requires |a| == |b| && forall i :: 0 <= i < |a| ==> (IsNum(a[i]) <==> IsNum(b[i])) && (IsNum(a[i]) ==> a[i] == b[i])
    ensures DigitRun(a) == DigitRun(b) && a[..DigitRun(a)] == b[..DigitRun(b)]
    decreases |a|
  {
    var n := DigitRun(a);
    var run := a[..n];
    forall i | 0 <= i < n
      ensures IsNum(a[i])
    {
      RunDigit(a, i);
    }
    DigitRunStops(b, n);
  }

  lemma {:induction false} DigitRunStops(s: string, n: nat)
    requires n <= |s| && (forall i :: 0 <= i < n ==> IsNum(s[i])) && (n < |s| ==> !IsNum(s[n]))
    ensures DigitRun(s) == n
    decreases n
  {
    if n > 0 {
      assert forall i :: 0 <= i < n ==> s[1..][i..] == s[i + 1..];
      DigitRunStops(s[1..], n - 1);
    }
  }

  // ----- the comparison -----

  lemma {:induction false} DifferenceSnoc(x: string, y: string, c: char, d: char)
    requires |x| == |y|
    ensures FirstDifference(x + [c], y + [d]) ==
              if FirstDifference(x, y) != 0 then FirstDifference(x, y) else c as int - d as int
    decreases |x|
  {
    if x != [] {
      assert (x + [c])[1..] == x[1..] + [c] && (y + [d])[1..] == y[1..] + [d];
      DifferenceSnoc(x[1..], y[1..], c, d);
    } else {
      assert x + [c] == [c] && y + [d] == [d];
    }
  }

  /** The character at position i, or the terminator. */
  function At(s: string, i: nat, signed: bool): int
    requires i <= |s|
  {
    if i < |s| then CharValue(s[i], signed) else 0
  }

  predicate NumAt(s: string, i: nat)
    requires i <= |s|
  {
    i < |s| && IsNum(s[i])
  }

  /** At position i of both names nothing has decided the comparison. */
  ghost predicate SoFar(a: string, b: string, i: nat, signed: bool) {
    i <= |a| && i <= |b| && Compare(a, b, signed) == Compare(a[i..], b[i..], signed)
  }

  /** Since position p both names have had digits only. */
  ghost predicate InRun(a: string, b: string, p: nat, i: nat, result: int) {
    && p <= i && i <= |a| && i <= |b|
    && i - p <= DigitRun(a[p..]) && i - p <= DigitRun(b[p..])
    && result == FirstDifference(a[p..i], b[p..i])
  }

  lemma RunStarts(a: string, b: string, p: nat)
    requires p <= |a| && p <= |b|
    ensures InRun(a, b, p, p, 0)
  {
  }

  lemma RunGoesOn(a: string, b: string, p: nat, i: nat, result: int)
    requires InRun(a, b, p, i, result) && i < |a| && i < |b| && IsNum(a[i]) && IsNum(b[i])
    ensures InRun(a, b, p, i + 1, if result != 0 then result else a[i] as int - b[i] as int)
  {
    LongerRun(a, p, i);
    LongerRun(b, p, i);
    assert a[p..i + 1] == a[p..i] + [a[i]] && b[p..i + 1] == b[p..i] + [b[i]];
    DifferenceSnoc(a[p..i], b[p..i], a[i], b[i]);
  }

  lemma LongerRun(s: string, p: nat, i: nat)
    requires p <= i < |s| && i - p <= DigitRun(s[p..]) && IsNum(s[i])
    ensures i - p < DigitRun(s[p..])
  {
    assert s[p..][i - p] == s[i];
  }

  lemma RunStops(s: string, p: nat, i: nat)
    requires p <= i <= |s| && i - p <= DigitRun(s[p..]) && (i < |s| ==> !IsNum(s[i]))
    ensures i - p == DigitRun(s[p..])
  {
    hide DigitRun;
    if i - p < DigitRun(s[p..]) {
      RunDigit(s[p..], i - p);
    }
  }

  /** What the run decides once one of the names leaves it. */
  lemma RunDecides(a: string, b: string, p: nat, i: nat, result: int, signed: bool)
    requires SoFar(a, b, p, signed) && InRun(a, b, p, i, result) && p < i
    requires i <= |a| && i <= |b| && !(NumAt(a, i) && NumAt(b, i))
    ensures NumAt(a, i) ==> Compare(a, b, signed) == Sign(1)
    ensures NumAt(b, i) ==> Compare(a, b, signed) == Sign(-1)
    ensures !NumAt(a, i) && !NumAt(b, i) && result != 0 ==> Compare(a, b, signed) == Sign(result)
    ensures !NumAt(a, i) && !NumAt(b, i) && result == 0 ==> SoFar(a, b, i, signed)
  {
    hide FirstDifference, DigitRun, Compare;
    var x, y := a[p..], b[p..];
    RunOfDigits(x);
    RunOfDigits(y);
    if i < |a| && IsNum(a[i]) {
      LongerRun(a, p, i);
      RunStops(b, p, i);
    } else if i < |b| && IsNum(b[i]) {
      LongerRun(b, p, i);
      RunStops(a, p, i);
    } else {
      RunStops(a, p, i);
      RunStops(b, p, i);
      assert x[..i - p] == a[p..i] && y[..i - p] == b[p..i];
      assert x[i - p..] == a[i..] && y[i - p..] == b[i..];
    }
    ByRuns(x, y, signed);
  }

  lemma RunOfDigits(s: string)
    requires DigitRun(s) > 0
    ensures IsNum(s[0])
  {
  }

  lemma ByRuns(x: string, y: string, signed: bool)
    requires x != [] && y != [] && IsNum(x[0]) && IsNum(y[0])
    ensures DigitRun(x) > DigitRun(y) ==> Compare(x, y, signed) == 1
    ensures DigitRun(x) < DigitRun(y) ==> Compare(x, y, signed) == -1
    ensures var n := DigitRun(x);
            n == DigitRun(y) ==>
              var d := FirstDifference(x[..n], y[..n]);
              Compare(x, y, signed) == if d != 0 then Sign(d) else Compare(x[n..], y[n..], signed)
  {
    hide FirstDifference;
    var n, m := DigitRun(x), DigitRun(y);
    assert Tokens(x, signed) == [Digits(x[..n])] + Tokens(x[n..], signed);
    assert Tokens(y, signed) == [Digits(y[..m])] + Tokens(y[m..], signed);
  }

  /** What two characters decide that do not both start a number. */
  lemma ByCharacters(a: string, b: string, i: nat, signed: bool)
    requires CString(a) && CString(b)
    requires SoFar(a, b, i, signed) && i < |a| && i < |b| && !(NumAt(a, i) && NumAt(b, i))
    ensures var d := ToLower(a[i], signed) - ToLower(b[i], signed);
            if d != 0 then Compare(a, b, signed) == Sign(d) else SoFar(a, b, i + 1, signed)
  {
    hide DigitRun;
    var x, y := a[i..], b[i..];
    assert x[1..] == a[i + 1..] && y[1..] == b[i + 1..];
  }

  lemma ByEnd(a: string, b: string, i: nat, signed: bool)
    requires CString(a) && CString(b) && SoFar(a, b, i, signed) && (i == |a| || i == |b|)
    ensures Compare(a, b, signed) == Sign(At(a, i, signed) - At(b, i, signed))
  {
    assert Tokens(a[i..], signed) == [] <==> i == |a|;
    assert Tokens(b[i..], signed) == [] <==> i == |b|;
  }

  /** The inner loop of str_comp_filenames: the digits both names have, and their first difference. */
  method CompareRun(a: string, b: string, p: nat) returns (result: int, i: nat)
    requires p <= |a| && p <= |b| && NumAt(a, p) && NumAt(b, p)
    ensures p < i <= |a| && i <= |b| && InRun(a, b, p, i, result) && !(NumAt(a, i) && NumAt(b, i))
  {
    hide InRun, IsNum;
    i := p;
    result := 0;
    RunStarts(a, b, p);
    while i == p || (NumAt(a, i) && NumAt(b, i))
      invariant p <= i <= |a| && i <= |b| && InRun(a, b, p, i, result)
      decreases |a| - i
    {
      RunGoesOn(a, b, p, i, result);
      if result == 0 {
        result := a[i] as int - b[i] as int;
      }
      i := i + 1;
    }
  }

  /** The block of str_comp_filenames for two numbers: what they decide, or where to go on. */
  method CompareBothNumbers(a: string, b: string, p: nat, signed: bool) returns (decided: bool, r: int, i: nat)
    requires CString(a) && CString(b) && SoFar(a, b, p, signed)
    requires p <= |a| && p <= |b| && NumAt(a, p) && NumAt(b, p)
    ensures if decided then Sign(r) == Compare(a, b, signed)
            else p < i < |a| && i < |b| && SoFar(a, b, i, signed) && !(NumAt(a, i) && NumAt(b, i))
  {
    hide *;
    r, i := CompareRun(a, b, p);
    RunDecides(a, b, p, i, r, signed);
    if NumAt(a, i) {
      return true, 1, i;
    } else if NumAt(b, i) {
      return true, -1, i;
    } else if r != 0 {
      return true, r, i;
    } else if i == |a| || i == |b| {
      ByEnd(a, b, i, signed);
      return true, At(a, i, signed) - At(b, i, signed), i;
    }
    return false, r, i;
  }

  /** str_comp_filenames. Both pointers are always at the same position. */
  method StrCompFilenames(a: string, b: string, signed: bool) returns (r: int)
    requires CString(a) && CString(b)
    ensures Sign(r) == Compare(a, b, signed)
  {
    assert a[0..] == a && b[0..] == b;
    assert SoFar(a, b, 0, signed);
    hide *;
    var i := 0;
    while i < |a| && i < |b|
      invariant i <= |a| && i <= |b| && SoFar(a, b, i, signed)
      decreases |a| - i
    {
      if NumAt(a, i) && NumAt(b, i) {
        var decided;
        decided, r, i := CompareBothNumbers(a, b, i, signed);
        if decided {
          return;
        }
      }
      ByCharacters(a, b, i, signed);
      r := ToLower(a[i], signed) - ToLower(b[i], signed);
      if r != 0 {
        return;
      }
      i := i + 1;
    }
    ByEnd(a, b, i, signed);
    return At(a, i, signed) - At(b, i, signed);
  }

  // ----- numbers -----

  predicate IsDigits(x: string) {
    x != [] && forall i :: 0 <= i < |x| ==> IsNum(x[i])
  }

  /** The usual notation of a number. */
  predicate NoLeadingZero(x: string) {
    IsDigits(x) && (|x| == 1 || x[0] != '0')
  }

  lemma AreDigits(x: string)
    requires IsDigits(x)
    ensures AllDigits(x, 10)
  {
    forall i | 0 <= i < |x|
      ensures 0 <= DigitOf(x[i]) < 10
    {
      assert IsNum(x[i]);
    }
  }

  lemma {:induction false} ByDigits(x: string, y: string)
    requires |x| == |y| && AllDigits(x, 10) && AllDigits(y, 10)
    ensures Sign(FirstDifference(x, y)) == Sign(Value(x, 10) - Value(y, 10))
    decreases |x|
  {
    hide DigitOf;
    if x != [] {
      var n := |x| - 1;
      ByDigits(x[..n], y[..n]);
      DifferenceSnoc(x[..n], y[..n], x[n], y[n]);
      assert x == x[..n] + [x[n]] && y == y[..n] + [y[n]];
      DigitDifference(x[n], y[n]);
    }
  }

  lemma DigitDifference(c: char, d: char)
    requires 0 <= DigitOf(c) < 10 && 0 <= DigitOf(d) < 10
    ensures c as int - d as int == DigitOf(c) - DigitOf(d)
  {
  }

  lemma {:induction false} LeadingDigitCounts(x: string)
    requires AllDigits(x, 10) && x != [] && x[0] != '0'
    ensures Value(x, 10) >= Power(10, |x| - 1)
    decreases |x|
  {
    hide DigitOf;
    var n := |x| - 1;
    if n > 0 {
      LeadingDigitCounts(x[..n]);
      Times(Power(10, n - 1), Value(x[..n], 10), 10);
    } else {
      NonzeroDigit(x[0]);
      assert x[..0] == [];
    }
  }

  lemma NonzeroDigit(c: char)
    requires 0 <= DigitOf(c) && c != '0'
    ensures DigitOf(c) > 0
  {
  }

  lemma {:induction false} PowersGrow(k: nat, n: nat)
    requires k <= n
    ensures Power(10, k) <= Power(10, n)
    decreases n
  {
    if k < n {
      PowersGrow(k, n - 1);
    }
  }

  lemma {:induction false} LeadingZeroDoesNot(x: string)
    requires AllDigits(x, 10) && |x| > 1 && x[0] == '0'
    ensures AllDigits(x[1..], 10) && Value(x, 10) == Value(x[1..], 10)
    decreases |x|
  {
    var n := |x| - 1;
    assert x[1..][..n - 1] == x[1..n] == x[..n][1..];
    if n > 1 {
      LeadingZeroDoesNot(x[..n]);
    } else {
      assert x[..n][..0] == [] && x[1..][..0] == [];
    }
  }

  lemma LongerIsLarger(x: string, y: string)
    requires NoLeadingZero(x) && IsDigits(y) && |x| > |y| && AllDigits(x, 10) && AllDigits(y, 10)
    ensures Value(x, 10) > Value(y, 10)
  {
    hide Value;
    ValueBelow(y, 10);
    PowersGrow(|y|, |x| - 1);
    LeadingDigitCounts(x);
  }

  /** The usual notation of the number x stands for. */
  function Stripped(x: string): (y: string)
    requires IsDigits(x)
    ensures NoLeadingZero(y) && |y| <= |x| && (|y| == |x| ==> y == x)
  {
    if |x| > 1 && x[0] == '0' then Stripped(x[1..]) else x
  }

  lemma {:induction false} StrippedValue(x: string)
    requires IsDigits(x)
    ensures AllDigits(x, 10) && AllDigits(Stripped(x), 10) && Value(Stripped(x), 10) == Value(x, 10)
    decreases |x|
  {
    AreDigits(x);
    if |x| > 1 && x[0] == '0' {
      LeadingZeroDoesNot(x);
      StrippedValue(x[1..]);
    }
  }

  predicate EndsInDigit(p: string) {
    p != [] && IsNum(p[|p| - 1])
  }

  /** The same text up to case in front of two numbers, and whatever is no digit behind them. */
  ghost predicate Around(p: string, q: string, s: string, t: string, signed: bool) {
    && CString(p) && CString(q) && Lower(p, signed) == Lower(q, signed)
    && !EndsInDigit(p) && !StartsWithDigit(s) && !StartsWithDigit(t)
  }

  /** Two names compare as the documentation says: by the numbers' values, and by what follows equal numbers. */
  ghost predicate ByValue(p: string, x: string, s: string, q: string, y: string, t: string, signed: bool)
    requires IsDigits(x) && IsDigits(y)
  {
    AreDigits(x);
    AreDigits(y);
    var d := Value(x, 10) - Value(y, 10);
    Compare(p + (x + s), q + (y + t), signed) == if d != 0 then Sign(d) else Compare(s, t, signed)
  }

  /** The first token, which n characters make up. */
  function FirstToken(s: string, n: nat, signed: bool): Token
    requires s != [] && n <= |s|
  {
    if IsNum(s[0]) then Digits(s[..n]) else Letter(ToLower(s[0], signed))
  }

  lemma SplitFirst(s: string, n: nat, signed: bool)
    requires s != [] && n == if IsNum(s[0]) then DigitRun(s) else 1
    ensures Tokens(s, signed) == [FirstToken(s, n, signed)] + Tokens(s[n..], signed)
  {
  }

  lemma {:induction false} TokensConcat(p: string, u: string, signed: bool)
    requires !(EndsInDigit(p) && StartsWithDigit(u))
    ensures Tokens(p + u, signed) == Tokens(p, signed) + Tokens(u, signed)
    decreases |p|
  {
    hide Tokens, DigitRun, IsNum, FirstToken;
    if p == [] {
      NothingInFront(u, signed);
    } else {
      var n := FirstLength(p, u);
      var rest := p[n..];
      TokensConcat(rest, u, signed);
      OneInFront(p, u, n, signed);
    }
  }

  lemma NothingInFront(u: string, signed: bool)
    ensures Tokens([] + u, signed) == Tokens([], signed) + Tokens(u, signed)
  {
    assert [] + u == u;
  }

  lemma OneInFront(p: string, u: string, n: nat, signed: bool)
    requires p != [] && 0 < n <= |p| && n == (if IsNum(p[0]) then DigitRun(p) else 1)
    requires n == if IsNum((p + u)[0]) then DigitRun(p + u) else 1
    requires Tokens(p[n..] + u, signed) == Tokens(p[n..], signed) + Tokens(u, signed)
    ensures Tokens(p + u, signed) == Tokens(p, signed) + Tokens(u, signed)
  {
    hide Tokens, DigitRun, IsNum;
    var s := p + u;
    assert s[..n] == p[..n] && s[n..] == p[n..] + u;
    SplitFirst(p, n, signed);
    SplitFirst(s, n, signed);
  }

  /** Text behind it does not change the first token of a text unless a number goes on. */
  lemma FirstLength(p: string, u: string) returns (n: nat)
    requires p != [] && !(EndsInDigit(p) && StartsWithDigit(u))
    ensures 0 < n <= |p| && n == (if IsNum(p[0]) then DigitRun(p) else 1)
    ensures n == if IsNum((p + u)[0]) then DigitRun(p + u) else 1
  {
    n := 1;
    if IsNum(p[0]) {
      RunInside(p, u);
      n := DigitRun(p);
    }
  }

  lemma RunInside(p: string, u: string)
    requires p != [] && !(EndsInDigit(p) && StartsWithDigit(u))
    ensures DigitRun(p + u) == DigitRun(p)
  {
    var n := DigitRun(p);
    if n == |p| {
      RunDigit(p, |p| - 1);
    }
    forall i | 0 <= i < n
      ensures IsNum((p + u)[i])
    {
      RunDigit(p, i);
    }
    DigitRunStops(p + u, n);
  }

  lemma {:induction false} CommonTokens(ts: seq<Token>, xs: seq<Token>, ys: seq<Token>)
    ensures CompareLists(ts + xs, ts + ys) == CompareLists(xs, ys)
    decreases |ts|
  {
    hide CompareTokens;
    if ts == [] {
      assert ts + xs == xs && ts + ys == ys;
    } else {
      SameToken(ts[0]);
      assert (ts + xs)[1..] == ts[1..] + xs && (ts + ys)[1..] == ts[1..] + ys;
      CommonTokens(ts[1..], xs, ys);
    }
  }

  lemma SameToken(t: Token)
    ensures CompareTokens(t, t) == 0
  {
    if t.Digits? {
      DifferenceFlips(t.run, t.run);
    }
  }

  /** Text in front that differs in case only has no say. */
  lemma CommonFront(p: string, q: string, u: string, v: string, signed: bool)
    requires CString(p) && CString(q) && Lower(p, signed) == Lower(q, signed)
    requires !(EndsInDigit(p) && (StartsWithDigit(u) || StartsWithDigit(v)))
    ensures Compare(p + u, q + v, signed) == Compare(u, v, signed)
  {
    TokensLower(p, q, signed);
    SameCharacters(p, q, signed);
    hide Tokens, CompareLists, Lower;
    TokensConcat(p, u, signed);
    TokensConcat(q, v, signed);
    CommonTokens(Tokens(p, signed), Tokens(u, signed), Tokens(v, signed));
  }

  /** A character that is no capital letter, and no terminator. */
  predicate NoCapital(c: char) {
    0 < c as int < 256 && !('A' <= c <= 'Z')
  }

  /**
    The first difference in case-insensitive names, unless it is between digits: a number that goes on
    is the larger one, and otherwise the values of the two characters decide.
  */
  lemma FirstDifferenceDecides(p: string, c: char, s: string, q: string, d: char, t: string, signed: bool)
    requires CString(p) && CString(q) && Lower(p, signed) == Lower(q, signed)
    requires NoCapital(c) && NoCapital(d) && c != d && !(IsNum(c) && IsNum(d))
    ensures Compare(p + ([c] + s), q + ([d] + t), signed) ==
              if EndsInDigit(p) && IsNum(c) then 1
              else if EndsInDigit(p) && IsNum(d) then -1
              else Sign(CharValue(c, signed) - CharValue(d, signed))
  {
    hide CompareLists, Tokens, Lower;
    var u, v := [c] + s, [d] + t;
    if EndsInDigit(p) && (IsNum(c) || IsNum(d)) {
      NumberGoesOn(p, u, q, v, signed);
    } else {
      CommonFront(p, q, u, v, signed);
      FirstCharacters(u, v, signed);
    }
  }

  lemma FirstCharacters(u: string, v: string, signed: bool)
    requires u != [] && v != [] && NoCapital(u[0]) && NoCapital(v[0])
    requires u[0] != v[0] && !(IsNum(u[0]) && IsNum(v[0]))
    ensures Compare(u, v, signed) == Sign(CharValue(u[0], signed) - CharValue(v[0], signed))
  {
    hide DigitRun;
    var n, m := if IsNum(u[0]) then DigitRun(u) else 1, if IsNum(v[0]) then DigitRun(v) else 1;
    SplitFirst(u, n, signed);
    SplitFirst(v, m, signed);
  }

  /** And a name that stops is compared by its terminator. */
  lemma EndDecides(p: string, q: string, d: char, t: string, signed: bool)
    requires CString(p) && CString(q) && Lower(p, signed) == Lower(q, signed) && NoCapital(d)
    ensures Compare(p, q + ([d] + t), signed) ==
              if EndsInDigit(p) && IsNum(d) then -1 else Sign(-CharValue(d, signed))
  {
    hide CompareLists, Lower;
    var v := [d] + t;
    assert p + [] == p;
    if EndsInDigit(p) && IsNum(d) {
      NumberGoesOn(p, [], q, v, signed);
    } else {
      CommonFront(p, q, [], v, signed);
      EndBefore(v, signed);
    }
  }

  lemma EndBefore(v: string, signed: bool)
    requires v != [] && NoCapital(v[0])
    ensures Compare([], v, signed) == Sign(-CharValue(v[0], signed))
  {
    hide DigitRun;
    SplitFirst(v, if IsNum(v[0]) then DigitRun(v) else 1, signed);
  }

  /** Where the digits at the end of a text begin. */
  function TailStart(p: string): (n: nat)
    ensures n <= |p| && (forall i :: n <= i < |p| ==> IsNum(p[i])) && !EndsInDigit(p[..n])
  {
    if EndsInDigit(p) then TailStart(p[..|p| - 1]) else |p|
  }

  /** The same number at the end of both texts, which goes on in one of them. */
  lemma NumberGoesOn(p: string, u: string, q: string, v: string, signed: bool)
    requires CString(p) && CString(q) && Lower(p, signed) == Lower(q, signed) && EndsInDigit(p)
    requires StartsWithDigit(u) != StartsWithDigit(v)
    ensures Compare(p + u, q + v, signed) == if StartsWithDigit(u) then 1 else -1
  {
    SameCharacters(p, q, signed);
    var n := TailStart(p);
    TailIsNumber(p, u, n);
    TailIsNumber(q, v, n);
    hide Compare, Lower, DigitRun;
    LowerTake(p, n, signed);
    LowerTake(q, n, signed);
    assert p + u == p[..n] + (p[n..] + u) && q + v == q[..n] + (q[n..] + v);
    CommonFront(p[..n], q[..n], p[n..] + u, q[n..] + v, signed);
    ByRuns(p[n..] + u, q[n..] + v, signed);
  }

  lemma LowerTake(s: string, n: nat, signed: bool)
    requires n <= |s|
    ensures Lower(s[..n], signed) == Lower(s, signed)[..n]
  {
  }

  lemma TailIsNumber(p: string, u: string, n: nat)
    requires n < |p| && forall i :: n <= i < |p| ==> IsNum(p[i])
    ensures IsNum((p[n..] + u)[0])
    ensures if StartsWithDigit(u) then DigitRun(p[n..] + u) > |p| - n else DigitRun(p[n..] + u) == |p| - n
  {
    var x := p[n..] + u;
    if StartsWithDigit(u) {
      assert forall i :: 0 <= i <= |p| - n ==> IsNum(x[i]);
    } else {
      DigitRunStops(x, |p| - n);
    }
  }

  /** A capital stands for the small letter, 32 above it, wherever it stands. */
  lemma CapitalIsSmall(p: string, c: char, d: char, s: string, b: string, signed: bool)
    requires 'A' <= c <= 'Z' && d as int == c as int + 32 && CString(p) && CString(s)
    ensures Compare(p + ([c] + s), b, signed) == Compare(p + ([d] + s), b, signed)
    ensures Compare(b, p + ([c] + s), signed) == Compare(b, p + ([d] + s), signed)
  {
    hide CompareLists, Tokens;
    TokensLower(p + ([c] + s), p + ([d] + s), signed);
  }

  /** Numbers compare by the length of their runs, then by digits, then by what follows them. */
  lemma CompareNumbers(x: string, s: string, y: string, t: string, signed: bool)
    requires IsDigits(x) && IsDigits(y) && !StartsWithDigit(s) && !StartsWithDigit(t)
    ensures Compare(x + s, y + t, signed) ==
              if |x| != |y| then Sign(|x| - |y|)
              else if FirstDifference(x, y) != 0 then Sign(FirstDifference(x, y)) else Compare(s, t, signed)
  {
    hide FirstDifference, Compare;
    var u, v := x + s, y + t;
    AreDigits(x);
    AreDigits(y);
    DigitRunIs(x, s);
    DigitRunIs(y, t);
    assert u[..|x|] == x && u[|x|..] == s && v[..|y|] == y && v[|y|..] == t;
    ByRuns(u, v, signed);
  }

  lemma ValueOrder(p: string, x: string, s: string, q: string, y: string, t: string, signed: bool)
    requires NoLeadingZero(x) && NoLeadingZero(y) && Around(p, q, s, t, signed)
    ensures ByValue(p, x, s, q, y, t, signed)
  {
    hide Compare, FirstDifference, Value, Lower;
    AreDigits(x);
    AreDigits(y);
    CommonFront(p, q, x + s, y + t, signed);
    CompareNumbers(x, s, y, t, signed);
    if |x| == |y| {
      ByDigits(x, y);
    } else if |x| > |y| {
      LongerIsLarger(x, y);
    } else {
      LongerIsLarger(y, x);
    }
  }

  /**
    The documented order by value: a number takes part in it, anywhere in a name and against every
    number without leading zeros, exactly when it has none itself.
  */
  lemma ByValueIff(x: string, signed: bool)
    requires IsDigits(x)
    ensures (forall p, s, q, y, t :: NoLeadingZero(y) && Around(p, q, s, t, signed) ==>
                                       ByValue(p, x, s, q, y, t, signed))
              <==> NoLeadingZero(x)
  {
    hide Around;
    if NoLeadingZero(x) {
      forall p, s, q, y, t | NoLeadingZero(y) && Around(p, q, s, t, signed)
        ensures ByValue(p, x, s, q, y, t, signed)
      {
        ValueOrder(p, x, s, q, y, t, signed);
      }
    } else {
      var y := Stripped(x);
      NothingAround(signed);
      NotByValue(x, signed);
      assert !ByValue([], x, [], [], y, [], signed);
    }
  }

  lemma NothingAround(signed: bool)
    ensures Around([], [], [], [], signed)
  {
  }

  lemma NotByValue(x: string, signed: bool)
    requires IsDigits(x) && !NoLeadingZero(x)
    ensures !ByValue([], x, [], [], Stripped(x), [], signed)
  {
    hide Compare;
    var y := Stripped(x);
    StrippedValue(x);
    CompareNumbers(x, [], y, [], signed);
    assert [] + (x + []) == x + [] && [] + (y + []) == y + [];
    NothingIsEqual(signed);
  }

  lemma NothingIsEqual(signed: bool)
    ensures Compare([], [], signed) == 0
  {
  }

  /** For one, "01" comes behind "9". */
  lemma LeadingZeroSortsLast(signed: bool)
    ensures Compare("01", "9", signed) == 1
  {
    hide Compare;
    assert "01" + [] == "01" && "9" + [] == "9";
    CompareNumbers("01", [], "9", [], signed);
  }
}
