/** Quoting of an argument list for a Windows command line, and the documented parser that has to undo it. */
module WindowsArgs {
  /** A UTF-16 code unit, the wchar_t of Windows. */
  type wide = u: int | 0 <= u < 0x1_0000

  const QUOTE: wide := '"' as int
  const BACKSLASH: wide := '\\' as int
  const SPACE: wide := ' ' as int
  const TAB: wide := '\t' as int

  function Backslashes(n: nat): (s: seq<wide>)
    ensures |s| == n
  {
    seq(n, i => BACKSLASH)
  }

  // ----- CommandLineToArgvW, as documented -----

  function BackslashRun(s: seq<wide>): (n: nat)
    ensures n <= |s| && s[..n] == Backslashes(n) && (n < |s| ==> s[n] != BACKSLASH)
  {
    if s == [] || s[0] != BACKSLASH then 0 else 1 + BackslashRun(s[1..])
  }

  function IsBlank(c: wide): bool {
    c == SPACE || c == TAB
  }

  /** An argument, and what follows the blank that ended it. */
  datatype Argument = Argument(text: seq<wide>, rest: seq<wide>)

  /**
    Reads on in an argument. A quote switches quoted mode; in it blanks belong to the argument.
    2n backslashes before a quote stand for n backslashes and leave the quote its meaning, 2n+1 for n
    backslashes and a literal quote; other backslashes stand for themselves.
  */
  function ReadArgument(s: seq<wide>, quoted: bool, text: seq<wide>): (a: Argument)
    ensures s != [] ==> |a.rest| < |s|
    decreases |s|
  {
    var n := BackslashRun(s);
    if s == [] then Argument(text, [])
    else if n > 0 then
      if n == |s| || s[n] != QUOTE then ReadArgument(s[n..], quoted, text + Backslashes(n))
      else if n % 2 == 0 then ReadArgument(s[n..], quoted, text + Backslashes(n / 2))
      else ReadArgument(s[n + 1..], quoted, text + Backslashes(n / 2) + [QUOTE])
    else if s[0] == QUOTE then ReadArgument(s[1..], !quoted, text)
    else if !quoted && IsBlank(s[0]) then Argument(text, s[1..])
    else ReadArgument(s[1..], quoted, text + [s[0]])
  }

  /** The arguments of a command line behind the program name. */
  function ArgumentsOf(s: seq<wide>): seq<seq<wide>>
    decreases |s|
  {
    if s == [] then []
    else if IsBlank(s[0]) then ArgumentsOf(s[1..])
    else
      var a := ReadArgument(s, false, []);
      [a.text] + ArgumentsOf(a.rest)
  }

  /** The program name has no escapes: it runs to the closing quote, or to a blank. */
  function ProgramLength(s: seq<wide>, quoted: bool): (n: nat)
    ensures n <= |s|
  {
    if s == [] || (if quoted then s[0] == QUOTE else IsBlank(s[0])) then 0 else 1 + ProgramLength(s[1..], quoted)
  }

  function CommandLineToArgv(s: seq<wide>): seq<seq<wide>> {
    if s != [] && s[0] == QUOTE then
      var n := ProgramLength(s[1..], true);
      [s[1..n + 1]] + ArgumentsOf(if n + 2 <= |s| then s[n + 2..] else [])
    else
      var n := ProgramLength(s, false);
      [s[..n]] + ArgumentsOf(s[n..])
  }

  // ----- the printer -----

  /** The quoted text of an argument in front of which n backslashes have been printed. */
  function Escaped(arg: seq<wide>, n: nat): seq<wide>
    decreases |arg|
  {
    if arg == [] then Backslashes(n)
    else if arg[0] == BACKSLASH then [BACKSLASH] + Escaped(arg[1..], n + 1)
    else if arg[0] == QUOTE then Backslashes(n + 1) + [QUOTE] + Escaped(arg[1..], 0)
    else [arg[0]] + Escaped(arg[1..], 0)
  }

  function Quoted(arg: seq<wide>): seq<wide> {
    [QUOTE] + Escaped(arg, 0) + [QUOTE]
  }

  function Printed(args: seq<seq<wide>>): seq<wide> {
    if args == [] then []
    else if |args| == 1 then Quoted(args[0])
    else Printed(args[..|args| - 1]) + [SPACE] + Quoted(args[|args| - 1])
  }

  // ----- reading back -----

  lemma {:induction false} RunOfBackslashes(n: nat, s: seq<wide>)
    requires s != [] && s[0] != BACKSLASH
    ensures BackslashRun(Backslashes(n) + s) == n
  {
    var t := Backslashes(n) + s;
    if n > 0 {
      assert t[1..] == Backslashes(n - 1) + s;
      RunOfBackslashes(n - 1, s);
    }
  }

  /** Without quotes an argument ends at a space or a tab, and its backslashes stand for themselves. */
  lemma ReadWord(word: seq<wide>, blank: wide, rest: seq<wide>)
    requires word != [] && blank in {' ' as int, '\t' as int}
    requires forall i :: 0 <= i < |word| ==> word[i] !in {' ' as int, '\t' as int, '"' as int}
    ensures ArgumentsOf(word + ([blank] + rest)) == [word] + ArgumentsOf(rest)
  {
    hide ReadArgument;
    assert (word + ([blank] + rest))[0] == word[0] && [] + word == word;
    ReadUnquoted(word, blank, rest, []);
  }

  lemma {:induction false} RunStopsBy(s: seq<wide>, k: nat)
    requires k < |s| && s[k] != BACKSLASH
    ensures BackslashRun(s) <= k
  {
    if k > 0 {
      RunStopsBy(s[1..], k - 1);
    }
  }

  /** Backslashes, or one character, that stand for themselves. */
  lemma ReadOn(s: seq<wide>, n: nat, text: seq<wide>)
    requires s != [] && n == BackslashRun(s) && !IsBlank(s[0]) && (n < |s| ==> s[n] != QUOTE)
    ensures var m := if n == 0 then 1 else n;
            m <= |s| && ReadArgument(s, false, text) == ReadArgument(s[m..], false, text + s[..m])
  {
    if n == 0 {
      assert s[..1] == [s[0]];
    }
  }

  lemma AtBlank(blank: wide, rest: seq<wide>, text: seq<wide>)
    requires IsBlank(blank)
    ensures ReadArgument([blank] + rest, false, text) == Argument(text, rest)
  {
    assert ([blank] + rest)[1..] == rest;
  }

  lemma {:induction false} ReadUnquoted(word: seq<wide>, blank: wide, rest: seq<wide>, text: seq<wide>)
    requires IsBlank(blank) && forall i :: 0 <= i < |word| ==> !IsBlank(word[i]) && word[i] != QUOTE
    ensures ReadArgument(word + ([blank] + rest), false, text) == Argument(text + word, rest)
    decreases |word|
  {
    hide ReadArgument, BackslashRun;
    var s := word + ([blank] + rest);
    if word == [] {
      AtBlank(blank, rest, text);
      assert s == [blank] + rest && text + word == text;
    } else {
      var n := BackslashRun(s);
      var m := if n == 0 then 1 else n;
      RunStopsBy(s, |word|);
      ReadOn(s, n, text);
      assert s[m..] == word[m..] + ([blank] + rest) && s[..m] == word[..m];
      ReadUnquoted(word[m..], blank, rest, text + word[..m]);
      assert text + word[..m] + word[m..] == text + word;
    }
  }

  /** n backslashes in front of something that is neither a backslash nor a quote. */
  lemma ReadPlain(n: nat, c: wide, rest: seq<wide>, text: seq<wide>)
    requires c != BACKSLASH && c != QUOTE
    ensures ReadArgument(Backslashes(n) + [c] + rest, true, text)
         == ReadArgument(rest, true, text + Backslashes(n) + [c])
  {
    var s := [c] + rest;
    var t := Backslashes(n) + s;
    assert Backslashes(n) + [c] + rest == t;
    RunOfBackslashes(n, s);
    assert t[n..] == s && s[1..] == rest;
    if n == 0 {
      assert text + Backslashes(0) == text;
    }
  }

  /** An odd or even run of backslashes in front of a quote. */
  lemma ReadRun(n: nat, odd: bool, t: seq<wide>, rest: seq<wide>, text: seq<wide>)
    requires var m := if odd then 2 * n + 1 else 2 * n;
             && m > 0 && |t| == m + 1 + |rest| && BackslashRun(t) == m && t[m] == QUOTE && t[m + 1..] == rest
    ensures odd ==> ReadArgument(t, true, text) == ReadArgument(rest, true, text + Backslashes(n) + [QUOTE])
    ensures !odd ==> ReadArgument(t, true, text) == ReadArgument(rest, false, text + Backslashes(n))
  {
    var m := if odd then 2 * n + 1 else 2 * n;
    assert m / 2 == n && m % 2 == if odd then 1 else 0;
    if !odd {
      var s := t[m..];
      assert s[0] == QUOTE && s[1..] == rest;
    }
  }

  /** 2n+1 backslashes in front of a quote. */
  lemma ReadEscapedQuote(n: nat, rest: seq<wide>, text: seq<wide>)
    ensures ReadArgument(Backslashes(2 * n + 1) + [QUOTE] + rest, true, text)
         == ReadArgument(rest, true, text + Backslashes(n) + [QUOTE])
  {
    hide ReadArgument, BackslashRun, Backslashes;
    var t := Backslashes(2 * n + 1) + ([QUOTE] + rest);
    assert Backslashes(2 * n + 1) + [QUOTE] + rest == t;
    RunOfBackslashes(2 * n + 1, [QUOTE] + rest);
    ReadRun(n, true, t, rest, text);
  }

  /** 2n backslashes in front of the closing quote. */
  lemma ReadClosing(n: nat, rest: seq<wide>, text: seq<wide>)
    ensures ReadArgument(Backslashes(2 * n) + [QUOTE] + rest, true, text)
         == ReadArgument(rest, false, text + Backslashes(n))
  {
    if n == 0 {
      var t := [QUOTE] + rest;
      assert Backslashes(0) + [QUOTE] + rest == t && t[1..] == rest;
      assert text + Backslashes(0) == text;
    } else {
      hide ReadArgument, BackslashRun, Backslashes;
      var t := Backslashes(2 * n) + ([QUOTE] + rest);
      assert Backslashes(2 * n) + [QUOTE] + rest == t;
      RunOfBackslashes(2 * n, [QUOTE] + rest);
      ReadRun(n, false, t, rest, text);
    }
  }

  /** Escaped text reads back as itself, with the n backslashes in front of it. */
  lemma {:induction false} ReadEscaped(arg: seq<wide>, n: nat, rest: seq<wide>, text: seq<wide>)
    ensures ReadArgument(Backslashes(n) + Escaped(arg, n) + [QUOTE] + rest, true, text)
         == ReadArgument(rest, false, text + Backslashes(n) + arg)
    decreases |arg|
  {
    hide ReadArgument;
    var input := Backslashes(n) + Escaped(arg, n) + [QUOTE] + rest;
    if arg == [] {
      assert input == Backslashes(2 * n) + [QUOTE] + rest;
      ReadClosing(n, rest, text);
      assert text + Backslashes(n) + arg == text + Backslashes(n);
    } else {
      var c, more := arg[0], arg[1..];
      assert arg == [c] + more;
      if c == BACKSLASH {
        assert input == Backslashes(n + 1) + Escaped(more, n + 1) + [QUOTE] + rest;
        ReadEscaped(more, n + 1, rest, text);
        assert text + Backslashes(n) + arg == text + Backslashes(n + 1) + more;
      } else {
        var tail, seen := Escaped(more, 0) + [QUOTE] + rest, text + Backslashes(n) + [c];
        if c == QUOTE {
          assert input == Backslashes(2 * n + 1) + [QUOTE] + tail;
          ReadEscapedQuote(n, tail, text);
        } else {
          assert input == Backslashes(n) + [c] + tail;
          ReadPlain(n, c, tail, text);
        }
        assert tail == Backslashes(0) + Escaped(more, 0) + [QUOTE] + rest;
        ReadEscaped(more, 0, rest, seen);
        assert seen + Backslashes(0) + more == text + Backslashes(n) + arg;
      }
    }
  }

  /** A quoted argument that ends the line or is followed by a space is read back whole. */
  lemma ReadQuoted(arg: seq<wide>, rest: seq<wide>)
    requires rest == [] || rest[0] == SPACE
    ensures ArgumentsOf(Quoted(arg) + rest) == [arg] + ArgumentsOf(rest)
  {
    var s := Quoted(arg) + rest;
    var inside := s[1..];
    assert inside == Backslashes(0) + Escaped(arg, 0) + [QUOTE] + rest;
    ReadEscaped(arg, 0, rest, []);
    assert [] + Backslashes(0) + arg == arg;
    assert ReadArgument(s, false, []) == ReadArgument(inside, true, []);
    assert ReadArgument(rest, false, arg) == Argument(arg, if rest == [] then [] else rest[1..]);
  }

  lemma SkipSpace(s: seq<wide>)
    ensures ArgumentsOf([SPACE] + s) == ArgumentsOf(s)
  {
    assert ([SPACE] + s)[1..] == s;
  }

  lemma {:induction false} ReadPrinted(args: seq<seq<wide>>, rest: seq<wide>)
    requires rest == [] || rest[0] == SPACE
    ensures ArgumentsOf(Printed(args) + rest) == args + ArgumentsOf(rest)
    decreases |args|
  {
    hide Quoted, ArgumentsOf;
    if args == [] {
      assert Printed(args) + rest == rest;
    } else {
      var front, last := args[..|args| - 1], args[|args| - 1];
      ReadQuoted(last, rest);
      if |args| == 1 {
        assert args == [last];
      } else {
        var tail := Quoted(last) + rest;
        assert Printed(args) + rest == Printed(front) + ([SPACE] + tail);
        ReadPrinted(front, [SPACE] + tail);
        SkipSpace(tail);
        assert args + ArgumentsOf(rest) == front + ([last] + ArgumentsOf(rest));
      }
    }
  }

  /** Every argument list survives printing and parsing. */
  lemma ArgumentsRoundTrip(args: seq<seq<wide>>)
    ensures ArgumentsOf(Printed(args)) == args
  {
    assert Printed(args) + [] == Printed(args);
    ReadPrinted(args, []);
  }

  /** Different lists never print alike. */
  lemma PrintedApart(a: seq<seq<wide>>, b: seq<seq<wide>>)
    ensures Printed(a) == Printed(b) <==> a == b
  {
    ArgumentsRoundTrip(a);
    ArgumentsRoundTrip(b);
  }

  lemma {:induction false} ProgramEnds(program: seq<wide>, rest: seq<wide>)
    requires QUOTE !in program && rest != [] && rest[0] == QUOTE
    ensures ProgramLength(program + rest, true) == |program|
    decreases |program|
  {
    if program == [] {
      assert program + rest == rest;
    } else {
      assert (program + rest)[1..] == program[1..] + rest;
      ProgramEnds(program[1..], rest);
    }
  }

  /** The started program sees its own quoted path and then the arguments. */
  lemma ProcessSeesArguments(program: seq<wide>, args: seq<seq<wide>>)
    requires QUOTE !in program
    ensures CommandLineToArgv([QUOTE] + program + [QUOTE, SPACE] + Printed(args)) == [program] + args
  {
    hide ReadArgument, ArgumentsOf;
    var params := Printed(args);
    var s := [QUOTE] + program + [QUOTE, SPACE] + params;
    var tail := [QUOTE, SPACE] + params;
    assert s[1..] == program + tail;
    ProgramEnds(program, tail);
    assert s[1..|program| + 1] == program && s[|program| + 2..] == [SPACE] + params;
    SkipSpace(params);
    ArgumentsRoundTrip(args);
  }

  /** windows_args_to_wide, the arguments being converted already. */
  method WindowsArgsToWide(arguments: seq<seq<wide>>) returns (wideArguments: seq<wide>)
    ensures wideArguments == Printed(arguments)
    ensures ArgumentsOf(wideArguments) == arguments
  {
    hide ArgumentsOf, Quoted;
    wideArguments := [];
    for i := 0 to |arguments|
      invariant wideArguments == Printed(arguments[..i])
    {
      if i > 0 {
        wideArguments := wideArguments + [SPACE];
      }
      wideArguments := AppendQuoted(wideArguments, arguments[i]);
      ghost var args := arguments[..i + 1];
      assert args[..i] == arguments[..i] && args[i] == arguments[i];
    }
    assert arguments[..|arguments|] == arguments;
    ArgumentsRoundTrip(arguments);
  }

  /** The body of the outer loop behind the separating space. */
  method AppendQuoted(start: seq<wide>, wideArg: seq<wide>) returns (wideArguments: seq<wide>)
    ensures wideArguments == start + Quoted(wideArg)
  {
    wideArguments := start + [QUOTE];
    var backslashes := 0;
    for k := 0 to |wideArg|
      invariant wideArguments + Escaped(wideArg[k..], backslashes) == start + [QUOTE] + Escaped(wideArg, 0)
    {
      var c := wideArg[k];
      ghost var more, printed := wideArg[k + 1..], wideArguments;
      assert wideArg[k..] == [c] + more;
      if c == BACKSLASH {
        backslashes := backslashes + 1;
      } else {
        if c == QUOTE {
          for j := 0 to backslashes + 1
            invariant wideArguments == printed + Backslashes(j)
          {
            wideArguments := wideArguments + [BACKSLASH];
          }
        }
        backslashes := 0;
      }
      wideArguments := wideArguments + [c];
    }
    ghost var printed := wideArguments;
    for j := 0 to backslashes
      invariant wideArguments == printed + Backslashes(j)
    {
      wideArguments := wideArguments + [BACKSLASH];
    }
    wideArguments := wideArguments + [QUOTE];
  }
}
