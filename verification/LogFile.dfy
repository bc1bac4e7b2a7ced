/** What CLoggerAsync puts into a log file, and what a reader of the file gets. */
module LogFile {
  import opened Bytes
  import opened Wrappers
  import opened Text
  import opened AioProtocol
  import opened AioTheorems

  datatype LogMessage = LogMessage(line: seq<byte>, haveColor: bool, r: byte, g: byte, b: byte)

  /** The writes of one CLoggerAsync::Log call. */
  function LogPieces(m: LogMessage, trueColor: bool, newline: seq<byte>): seq<seq<byte>> {
    var colored := trueColor && m.haveColor;
    (if colored then [[0x1b] + Ascii("[38;2;" + Decimal(m.r) + ";" + Decimal(m.g) + ";" + Decimal(m.b) + "m")] else [])
    + [m.line]
    + (if colored then [[0x1b] + Ascii("[0m")] else [])
    + [newline]
  }

  function Rendered(ms: seq<LogMessage>, trueColor: bool, newline: seq<byte>): seq<byte> {
    if ms == [] then []
    else Rendered(ms[..|ms| - 1], trueColor, newline) + Concat(LogPieces(ms[|ms| - 1], trueColor, newline))
  }

  /** Only CLoggerAsync::Log appends: the k-th section is the call for message ms[k]. */
  ghost predicate Logs(steps: seq<Step>, ms: seq<LogMessage>, trueColor: bool, newline: seq<byte>) {
    && |ms| == |Begins(steps)|
    && forall k :: 0 <= k < |ms| ==> Begins(steps)[k] == LogPieces(ms[k], trueColor, newline)
  }

  // ----- reading a log file -----

  const ESC: byte := 0x1b
  const CR: byte := 0x0d
  const LF: byte := 0x0a

  /** What aio_write_newline writes, on Windows and elsewhere. */
  predicate IsNewline(newline: seq<byte>) {
    newline == [LF] || newline == [CR, LF]
  }

  datatype Color = Color(r: nat, g: nat, b: nat)

  /** A line of a log file, with the color it is shown in. */
  datatype Entry = Entry(line: seq<byte>, color: Option<Color>) | Garbled

  /** Where the first newline is, or the end. */
  function LineEnd(s: seq<byte>, newline: seq<byte>): (n: nat)
    ensures n <= |s| && (n < |s| ==> newline <= s[n..])
  {
    if s == [] || newline <= s then 0
    else
      var n := LineEnd(s[1..], newline);
      assert s[1..][n..] == s[n + 1..];
      1 + n
  }

  function Chars(s: seq<byte>): (t: string)
    ensures |t| == |s|
  {
    seq(|s|, i requires 0 <= i < |s| => s[i] as char)
  }

  datatype Numbered = Numbered(value: nat, rest: string)

  /** A decimal number and the character that ends it. */
  function ReadNumber(t: string, stop: char): (r: Option<Numbered>)
    ensures r.Some? ==> |r.value.rest| < |t|
  {
    var n := DigitRun(t);
    if n == 0 || n == |t| || t[n] != stop then None else Some(Numbered(Value(t[..n], 10), t[n + 1..]))
  }

  datatype Colored = Colored(color: Color, rest: string)

  /** The 24-bit color sequence that selects a foreground color, behind its ESC. */
  function ReadColor(t: string): (r: Option<Colored>)
    ensures r.Some? ==> |r.value.rest| < |t|
  {
    if !("[38;2;" <= t) then None
    else match ReadNumber(t[6..], ';')
      case None => None
      case Some(red) =>
        match ReadNumber(red.rest, ';')
        case None => None
        case Some(green) =>
          match ReadNumber(green.rest, 'm')
          case None => None
          case Some(blue) => Some(Colored(Color(red.value, green.value, blue.value), blue.rest))
  }

  /** A line is plain, or starts with a color sequence and ends with the one that resets the color. */
  function ReadEntry(text: seq<byte>): Entry {
    if text == [] || text[0] != ESC then Entry(text, None)
    else match ReadColor(Chars(text[1..]))
      case None => Garbled
      case Some(colored) =>
        var from, to := |text| - |colored.rest|, |text| - 4;
        if from <= to && text[to] == ESC && Chars(text[to + 1..]) == "[0m"
        then Entry(text[from..to], Some(colored.color)) else Garbled
  }

  /** What follows the first newline. */
  function Behind(s: seq<byte>, newline: seq<byte>): (rest: seq<byte>)
    requires newline != [] && LineEnd(s, newline) < |s|
    ensures |rest| < |s|
  {
    s[LineEnd(s, newline) + |newline|..]
  }

  /** The complete lines of a file. */
  function ReadLog(s: seq<byte>, newline: seq<byte>): seq<Entry>
    requires newline != []
    decreases |s|
  {
    if LineEnd(s, newline) == |s| then []
    else [ReadEntry(s[..LineEnd(s, newline)])] + ReadLog(Behind(s, newline), newline)
  }

  // ----- it is the messages that were logged -----

  /** What a reader should see of a message. */
  function Shown(m: LogMessage, trueColor: bool): Entry {
    Entry(m.line, if trueColor && m.haveColor then Some(Color(m.r, m.g, m.b)) else None)
  }

  function AllShown(ms: seq<LogMessage>, trueColor: bool): (entries: seq<Entry>)
    ensures |entries| == |ms|
  {
    seq(|ms|, i requires 0 <= i < |ms| => Shown(ms[i], trueColor))
  }

  /** A text without newline. */
  ghost predicate OneLine(text: seq<byte>, newline: seq<byte>) {
    forall k :: 0 <= k < |text| && text[k] == LF ==> newline == [CR, LF] && (k == 0 || text[k - 1] != CR)
  }

  /** A message on one line, which without a color of its own does not start with an escape sequence. */
  ghost predicate Readable(m: LogMessage, trueColor: bool, newline: seq<byte>) {
    OneLine(m.line, newline) && ((trueColor && m.haveColor) || m.line == [] || m.line[0] != ESC)
  }

  lemma {:induction false} LineEndAt(text: seq<byte>, newline: seq<byte>, rest: seq<byte>)
    requires IsNewline(newline) && OneLine(text, newline)
    ensures LineEnd(text + (newline + rest), newline) == |text|
    decreases |text|
  {
    var s := text + (newline + rest);
    if text == [] {
      assert s == newline + rest;
    } else {
      assert s[1..] == text[1..] + (newline + rest);
      assert s[0] == text[0] && s[1] == if |text| > 1 then text[1] else newline[0];
      assert !(newline <= s);
      assert OneLine(text[1..], newline) by {
        assert forall k :: 0 <= k < |text| - 1 ==> text[1..][k] == text[k + 1];
      }
      LineEndAt(text[1..], newline, rest);
    }
  }

  /** The sequence that selects a color, behind its ESC. */
  function Selection(m: LogMessage): string {
    "[38;2;" + Decimal(m.r) + ";" + Decimal(m.g) + ";" + Decimal(m.b) + "m"
  }

  /** A message's bytes in front of its newline. */
  function Line(m: LogMessage, trueColor: bool): seq<byte> {
    if trueColor && m.haveColor then [ESC] + Ascii(Selection(m)) + m.line + ([ESC] + Ascii("[0m")) else m.line
  }

  lemma PiecesAreLine(m: LogMessage, trueColor: bool, newline: seq<byte>)
    ensures Concat(LogPieces(m, trueColor, newline)) == Line(m, trueColor) + newline
  {
    hide Decimal, Ascii;
    if trueColor && m.haveColor {
      var a, b := [ESC] + Ascii(Selection(m)), [ESC] + Ascii("[0m");
      assert LogPieces(m, trueColor, newline) == [a, m.line, b, newline];
      assert Concat([a, m.line, b, newline]) == a + Concat([m.line, b, newline]);
      assert Concat([m.line, b, newline]) == m.line + Concat([b, newline]);
      assert Concat([b, newline]) == b + Concat([newline]);
      assert Concat([newline]) == newline;
    } else {
      assert LogPieces(m, trueColor, newline) == [m.line, newline];
      assert Concat([m.line, newline]) == m.line + Concat([newline]);
      assert Concat([newline]) == newline;
    }
  }

  predicate Printable(t: string) {
    forall i :: 0 <= i < |t| ==> 32 <= t[i] as int < 127
  }

  lemma DecimalPrintable(n: nat)
    ensures Printable(Decimal(n))
  {
    DigitsStyle(n, 10);
  }

  lemma SelectionPrintable(m: LogMessage)
    ensures Printable(Selection(m))
  {
    DecimalPrintable(m.r);
    DecimalPrintable(m.g);
    DecimalPrintable(m.b);
  }

  predicate NoBreak(s: seq<byte>) {
    forall i :: 0 <= i < |s| ==> s[i] != LF && s[i] != CR
  }

  lemma ByteBetween(a: seq<byte>, line: seq<byte>, b: seq<byte>, k: nat)
    requires k < |a + line + b|
    ensures (a + line + b)[k] ==
              if k < |a| then a[k] else if k < |a| + |line| then line[k - |a|] else b[k - |a| - |line|]
  {
  }

  lemma OneLineBetween(a: seq<byte>, line: seq<byte>, b: seq<byte>, newline: seq<byte>)
    requires OneLine(line, newline)
    requires NoBreak(a) && NoBreak(b)
    ensures OneLine(a + line + b, newline)
  {
    var text := a + line + b;
    forall k | 0 <= k < |text| && text[k] == LF
      ensures newline == [CR, LF] && (k == 0 || text[k - 1] != CR)
    {
      ByteBetween(a, line, b, k);
      if 0 < k {
        ByteBetween(a, line, b, k - 1);
      }
    }
  }

  lemma PrintableBytes(t: string)
    requires Printable(t)
    ensures NoBreak(Ascii(t)) && Chars(Ascii(t)) == t
  {
  }

  lemma LineIsOneLine(m: LogMessage, trueColor: bool, newline: seq<byte>)
    requires OneLine(m.line, newline)
    ensures OneLine(Line(m, trueColor), newline)
  {
    hide OneLine, Ascii, Selection;
    SelectionPrintable(m);
    PrintableBytes(Selection(m));
    PrintableBytes("[0m");
    OneLineBetween([ESC] + Ascii(Selection(m)), m.line, [ESC] + Ascii("[0m"), newline);
  }

  lemma NumberReadsBack(n: nat, stop: char, rest: string)
    requires !IsNum(stop)
    ensures ReadNumber(Decimal(n) + ([stop] + rest), stop) == Some(Numbered(n, rest))
  {
    var t := Decimal(n) + ([stop] + rest);
    ValueOfDigits(n, 10);
    DigitRunIs(Decimal(n), [stop] + rest);
    hide DigitRun, Digits, Value;
    assert t[..|Decimal(n)|] == Decimal(n) && t[|Decimal(n)| + 1..] == rest;
  }

  lemma SelectionReadsBack(m: LogMessage, rest: string)
    ensures ReadColor(Selection(m) + rest) == Some(Colored(Color(m.r, m.g, m.b), rest))
  {
    hide ReadNumber, Decimal;
    var blue := Decimal(m.b) + ("m" + rest);
    var green := Decimal(m.g) + (";" + blue);
    var red := Decimal(m.r) + (";" + green);
    assert Selection(m) + rest == "[38;2;" + red;
    assert ("[38;2;" + red)[6..] == red;
    NumberReadsBack(m.r, ';', green);
    NumberReadsBack(m.g, ';', blue);
    NumberReadsBack(m.b, 'm', rest);
  }

  lemma CharsConcat(x: seq<byte>, y: seq<byte>)
    ensures Chars(x + y) == Chars(x) + Chars(y)
  {
  }

  lemma ColoredText(select: seq<byte>, line: seq<byte>, reset: seq<byte>)
    ensures var text := [ESC] + select + line + ([ESC] + reset); var to := |text| - 1 - |reset|;
            && text[1..] == select + (line + ([ESC] + reset))
            && text[0] == text[to] == ESC && text[to + 1..] == reset && text[1 + |select|..to] == line
  {
  }

  /** The reader gets a message's line and its color. */
  lemma LineReadsBack(m: LogMessage, trueColor: bool, newline: seq<byte>)
    requires Readable(m, trueColor, newline)
    ensures ReadEntry(Line(m, trueColor)) == Shown(m, trueColor)
  {
    if trueColor && m.haveColor {
      hide ReadColor, Ascii, Selection, Chars, OneLine;
      var select, reset := Ascii(Selection(m)), Ascii("[0m");
      var behind := m.line + ([ESC] + reset);
      SelectionPrintable(m);
      PrintableBytes(Selection(m));
      PrintableBytes("[0m");
      SelectionReadsBack(m, Chars(behind));
      CharsConcat(select, behind);
      ColoredText(select, m.line, reset);
    }
  }

  lemma {:induction false} RenderedFirst(ms: seq<LogMessage>, trueColor: bool, newline: seq<byte>)
    requires ms != []
    ensures Rendered(ms, trueColor, newline) ==
              Line(ms[0], trueColor) + (newline + Rendered(ms[1..], trueColor, newline))
    decreases |ms|
  {
    hide LogPieces, Line, Concat;
    var n := |ms| - 1;
    PiecesAreLine(ms[n], trueColor, newline);
    if n == 0 {
      assert ms[..0] == ms[1..] == [];
    } else {
      RenderedFirst(ms[..n], trueColor, newline);
      assert ms[..n][1..] == ms[1..][..n - 1];
    }
  }

  /** Whoever reads the messages of a log gets their lines and colors, one by one and in order. */
  lemma {:induction false} MessagesReadBack(ms: seq<LogMessage>, trueColor: bool, newline: seq<byte>)
    requires IsNewline(newline) && forall k :: 0 <= k < |ms| ==> Readable(ms[k], trueColor, newline)
    ensures ReadLog(Rendered(ms, trueColor, newline), newline) == AllShown(ms, trueColor)
    decreases |ms|
  {
    hide Readable, Rendered, Line, ReadEntry, Shown, OneLine, ReadLog, LineEnd;
    if ms == [] {
      NothingRead(trueColor, newline);
    } else {
      var m, rest := ms[0], Rendered(ms[1..], trueColor, newline);
      var s, line := Rendered(ms, trueColor, newline), Line(m, trueColor);
      RenderedFirst(ms, trueColor, newline);
      assert OneLine(m.line, newline) by { ReadableIsOneLine(m, trueColor, newline); }
      LineIsOneLine(m, trueColor, newline);
      LineEndAt(line, newline, rest);
      LineReadsBack(m, trueColor, newline);
      ReadLogFirst(s, newline);
      assert s[..|line|] == line && s[|line| + |newline|..] == rest;
      MessagesReadBack(ms[1..], trueColor, newline);
      assert AllShown(ms, trueColor) == [Shown(m, trueColor)] + AllShown(ms[1..], trueColor);
    }
  }

  lemma NothingRead(trueColor: bool, newline: seq<byte>)
    requires newline != []
    ensures ReadLog(Rendered([], trueColor, newline), newline) == []
  {
  }

  lemma ReadLogFirst(s: seq<byte>, newline: seq<byte>)
    requires newline != [] && LineEnd(s, newline) < |s|
    ensures ReadLog(s, newline) == [ReadEntry(s[..LineEnd(s, newline)])] + ReadLog(Behind(s, newline), newline)
  {
    hide LineEnd, ReadEntry, Behind;
  }

  lemma NoLineLeft(s: seq<byte>, newline: seq<byte>)
    requires newline != [] && LineEnd(s, newline) == |s|
    ensures ReadLog(s, newline) == []
  {
  }

  lemma ReadableIsOneLine(m: LogMessage, trueColor: bool, newline: seq<byte>)
    requires Readable(m, trueColor, newline)
    ensures OneLine(m.line, newline)
  {
  }

  /** Line and newline in turn. */
  function InTurn(ms: seq<LogMessage>, newline: seq<byte>): (pieces: seq<seq<byte>>)
    ensures |pieces| == 2 * |ms|
  {
    seq(2 * |ms|, i requires 0 <= i < 2 * |ms| => if i % 2 == 0 then ms[i / 2].line else newline)
  }

  /** Without colors that is the whole file, whatever the lines hold. */
  lemma {:induction false} PlainLog(ms: seq<LogMessage>, newline: seq<byte>)
    ensures Rendered(ms, false, newline) == Concat(InTurn(ms, newline))
    decreases |ms|
  {
    hide Rendered, InTurn;
    if ms == [] {
      assert InTurn(ms, newline) == [];
      NothingRendered(newline);
    } else {
      RenderedFirst(ms, false, newline);
      PlainLog(ms[1..], newline);
      FirstTwo(ms, newline);
      ConcatParts([ms[0].line, newline], InTurn(ms[1..], newline));
      assert Concat([ms[0].line, newline]) == ms[0].line + Concat([newline]) == ms[0].line + newline;
    }
  }

  lemma NothingRendered(newline: seq<byte>)
    ensures Rendered([], false, newline) == []
  {
  }

  lemma FirstTwo(ms: seq<LogMessage>, newline: seq<byte>)
    requires ms != []
    ensures InTurn(ms, newline) == [ms[0].line, newline] + InTurn(ms[1..], newline)
  {
  }

  lemma {:induction false} LineEndExtends(s: seq<byte>, t: seq<byte>, newline: seq<byte>)
    requires s <= t && LineEnd(s, newline) < |s|
    ensures LineEnd(t, newline) == LineEnd(s, newline)
    decreases |s|
  {
    if !(newline <= s) {
      assert s[1..] <= t[1..] && s[0] == t[0];
      LineEndExtends(s[1..], t[1..], newline);
    }
  }

  /** What has been read of a file stays what it is as the file grows. */
  lemma {:induction false} ReadLogExtends(s: seq<byte>, t: seq<byte>, newline: seq<byte>)
    requires s <= t && newline != []
    ensures ReadLog(s, newline) <= ReadLog(t, newline)
    decreases |s|
  {
    hide ReadEntry, ReadLog, LineEnd;
    var n := LineEnd(s, newline);
    if n == |s| {
      NoLineLeft(s, newline);
    } else {
      LineEndExtends(s, t, newline);
      ReadLogFirst(s, newline);
      ReadLogFirst(t, newline);
      assert s[..n] == t[..n] && s[n + |newline|..] <= t[n + |newline|..];
      ReadLogExtends(s[n + |newline|..], t[n + |newline|..], newline);
    }
  }

  lemma {:induction false} RenderedSections(begins: seq<seq<seq<byte>>>, ms: seq<LogMessage>, trueColor: bool,
                                            newline: seq<byte>)
    requires |ms| == |begins| && forall k :: 0 <= k < |ms| ==> begins[k] == LogPieces(ms[k], trueColor, newline)
    ensures Sections(begins) == Rendered(ms, trueColor, newline)
    decreases |ms|
  {
    hide LogPieces, Concat;
    if ms != [] {
      RenderedSections(begins[..|ms| - 1], ms[..|ms| - 1], trueColor, newline);
    }
  }

  /**
    A log file is at all times a prefix of the messages whose Log calls have begun, rendered whole and
    in the order in which the calls took the lock; once nothing is underway it is all of them.
  */
  lemma LogFileIsPrefixOfMessages(run: seq<State>, steps: seq<Step>, i: nat, ms: seq<LogMessage>, trueColor: bool,
                                  newline: seq<byte>)
    requires IsRun(run, steps) && Init(run[0]) && i < |run| && Logs(steps, ms, trueColor, newline)
    ensures var n := |Begins(steps[..i])|;
            && n <= |ms| && run[i].file <= Rendered(ms[..n], trueColor, newline)
            && (AllInFile(run[i]) ==> run[i].file == Rendered(ms[..n], trueColor, newline))
  {
    hide Next, Init, Sections, Rendered, LogPieces, AllInFile, Begins;
    FileIsPrefixOfSections(run, steps, i);
    BeginsSoFar(steps, i);
    var begins := Begins(steps[..i]);
    RenderedSections(begins, ms[..|begins|], trueColor, newline);
  }

  /**
    At all times a reader of the log file gets the first of the messages whose Log calls have begun, each
    with its line and color and in the order in which the calls took the lock; all of them once nothing
    is underway.
  */
  lemma LogReadsAsMessages(run: seq<State>, steps: seq<Step>, i: nat, ms: seq<LogMessage>, trueColor: bool,
                           newline: seq<byte>)
    requires IsRun(run, steps) && Init(run[0]) && i < |run| && Logs(steps, ms, trueColor, newline)
    requires IsNewline(newline) && forall k :: 0 <= k < |ms| ==> Readable(ms[k], trueColor, newline)
    ensures var n := |Begins(steps[..i])|;
            && n <= |ms| && ReadLog(run[i].file, newline) <= AllShown(ms[..n], trueColor)
            && (AllInFile(run[i]) ==> ReadLog(run[i].file, newline) == AllShown(ms[..n], trueColor))
  {
    hide Next, Init, Rendered, LogPieces, AllInFile, Begins, ReadLog, Readable, AllShown;
    LogFileIsPrefixOfMessages(run, steps, i, ms, trueColor, newline);
    var n := |Begins(steps[..i])|;
    MessagesReadBack(ms[..n], trueColor, newline);
    ReadLogExtends(run[i].file, Rendered(ms[..n], trueColor, newline), newline);
  }

  /** When the worker leaves, the log holds every message whose call has begun, and reads as these. */
  lemma LogIsCompleteAtExit(run: seq<State>, steps: seq<Step>, i: nat, ms: seq<LogMessage>, trueColor: bool,
                            newline: seq<byte>)
    requires IsRun(run, steps) && Init(run[0]) && i < |steps| && steps[i] == WExit
    requires Logs(steps, ms, trueColor, newline)
    ensures var n := |Begins(steps[..i + 1])|;
            && n <= |ms| && run[i + 1].file == Rendered(ms[..n], trueColor, newline)
            && (IsNewline(newline) && (forall k :: 0 <= k < |ms| ==> Readable(ms[k], trueColor, newline)) ==>
                  ReadLog(run[i + 1].file, newline) == AllShown(ms[..n], trueColor))
  {
    hide Init, Rendered, LogPieces, Begins, IsNewline, Readable, ReadLog, AllShown;
    RunsKeepInv(run, steps, i);
    assert Next(run[i], steps[i], run[i + 1]);
    ExitLeavesNothing(run[i], run[i + 1]);
    LogFileIsPrefixOfMessages(run, steps, i + 1, ms, trueColor, newline);
    if IsNewline(newline) && forall k :: 0 <= k < |ms| ==> Readable(ms[k], trueColor, newline) {
      LogReadsAsMessages(run, steps, i + 1, ms, trueColor, newline);
    }
  }
}
