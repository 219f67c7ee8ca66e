/** `process_commands`: each line of the input is checked for its
    terminating semicolon, lexed, parsed and interpreted against one symbol
    table shared by all lines. */
module Driver {
  import opened Strings
  import opened Tokens
  import opened Lexer
  import opened Parser
  import opened SymbolTable
  import opened Interpreter

  /** How a line hands over to the next one: go on, stop the session because
      EXIT ran, or never return because the lexer loops. */
  datatype LineEnd = Next | Quit | Hang

  datatype LineResult = LineResult(table: Table, out: string, end: LineEnd)

  /** Every line written ends with a newline: the output is empty or its last
      character is `\n`. */
  predicate WholeLines(s: string) {
    |s| == 0 || s[|s| - 1] == '\n'
  }

  /** `m` written as one line. */
  function OneLine(m: string): (r: string)
    ensures |r| == |m| + 1 && r[..|m|] == m && WholeLines(r)
  {
    m + "\n"
  }

  /** The complaint about a line without its semicolon: an error line that
      quotes the stripped line at its end. */
  function SemicolonError(line: string): (r: string)
    ensures WholeLines(r) && |r| > |line| + 7
    ensures r[..7] == "Error: " && r[|r| - 1 - |line|..|r| - 1] == line
  {
    var tag := "Error: ";
    var m := tag + ("Every input must end with a semicolon (;). Please fix the line: " + line);
    assert m[..|tag|] == tag && m[|m| - |line|..] == line;
    OneLine(m)
  }

  /** The report of a parse error: the line in quotes, then the message. */
  function LineError(line: string, message: string): (r: string)
    ensures WholeLines(r)
    ensures var head := "Error in line '" + line + "': ";
      && |r| == |head| + |message| + 1
      && r[..|head|] == head && r[|head|..|r| - 1] == message
  {
    var head := "Error in line '" + line + "': ";
    var m := head + message;
    assert m[..|head|] == head && m[|head|..] == message;
    OneLine(m)
  }

  /** One iteration of the loop in `process_commands`. */
  function ProcessLine(raw: string, t: Table): (r: LineResult)
    ensures var line := Strip(raw);
      && (r.end.Hang? <==> EndsWith(line, ";") && Lex(line).Diverges?)
      && (|line| > 0 && !EndsWith(line, ";") ==> r == LineResult(t, SemicolonError(line), Next))
      && (line == "" ==> r == LineResult(t, "", Next))
    ensures r.end.Quit? ==> EndsWith(Strip(raw), ";") && Lex(Strip(raw)).Tokens?
    ensures DistinctKeys(t) ==> DistinctKeys(r.table)
  {
    var line := Strip(raw);
    if |line| > 0 && !EndsWith(line, ";") then LineResult(t, SemicolonError(line), Next)
    else
      match Lex(line)
      case Diverges => LineResult(t, "", Hang)
      case Tokens(ts) =>
        if |ts| == 0 then LineResult(t, "", Next)
        else
          match ParseProgram(ts)
          case Failure(m) => LineResult(t, LineError(line, m), Next)
          case Success(p) =>
            var run := Interpret(p, t);
            LineResult(run.table, run.out, if run.status.Exited? then Quit else Next)
  }

  /** How a session ended: every line was read, EXIT returned `'EXIT'`, or a
      line made the lexer loop for ever. */
  datatype SessionEnd = EndOfInput | ExitCommand | Hung

  datatype Session = Session(table: Table, out: string, end: SessionEnd)

  /** The loop of `process_commands`, for a given way of processing one
      line: a line that quits or hangs ends the loop. */
  function Loop(step: (string, Table) -> LineResult, lines: seq<string>, t: Table): (r: Session)
    ensures |lines| == 0 ==> r == Session(t, "", EndOfInput)
    ensures !r.end.EndOfInput? ==> |lines| > 0
    decreases |lines|
  {
    if |lines| == 0 then Session(t, "", EndOfInput)
    else
      var l := step(lines[0], t);
      match l.end
      case Hang => Session(l.table, l.out, Hung)
      case Quit => Session(l.table, l.out, ExitCommand)
      case Next =>
        var s := Loop(step, lines[1..], l.table);
        Session(s.table, l.out + s.out, s.end)
  }

  /** `process_commands` over the lines `splitlines` produced. */
  function ProcessCommands(lines: seq<string>, t: Table): (r: Session)
    ensures DistinctKeys(t) ==> DistinctKeys(r.table)
    ensures |lines| == 0 ==> r == Session(t, "", EndOfInput)
    ensures !r.end.EndOfInput? ==> |lines| > 0
  {
    LoopKeepsDistinct(ProcessLine, lines, t);
    Loop(ProcessLine, lines, t)
  }

  /** Reading `more` lines after a session that read all of its lines. */
  function Resume(step: (string, Table) -> LineResult, s: Session, more: seq<string>): Session {
    if s.end.EndOfInput? then
      var s' := Loop(step, more, s.table);
      Session(s'.table, s.out + s'.out, s'.end)
    else s
  }

  // ---------------------------------------------------------------------
  // The loop, whatever a line does.

  lemma {:induction false} LoopConcat(step: (string, Table) -> LineResult, a: seq<string>, b: seq<string>, t: Table)
    ensures Loop(step, a + b, t) == Resume(step, Loop(step, a, t), b)
    decreases |a|
  {
    if |a| == 0 {
      assert a + b == b;
    } else {
      assert (a + b)[0] == a[0];
      assert (a + b)[1..] == a[1..] + b;
      var l := step(a[0], t);
      if l.end.Next? {
        LoopConcat(step, a[1..], b, l.table);
        var s := Loop(step, a[1..], l.table);
        if s.end.EndOfInput? {
          var s' := Loop(step, b, s.table);
          assert l.out + s.out + s'.out == l.out + (s.out + s'.out);
        }
      }
    }
  }

  lemma {:induction false} LoopKeepsDistinct(step: (string, Table) -> LineResult, lines: seq<string>, t: Table)
    requires forall l, u :: DistinctKeys(u) ==> DistinctKeys(step(l, u).table)
    ensures DistinctKeys(t) ==> DistinctKeys(Loop(step, lines, t).table)
    decreases |lines|
  {
    if |lines| > 0 {
      LoopKeepsDistinct(step, lines[1..], step(lines[0], t).table);
    }
  }

  lemma {:induction false} LoopWritesLines(step: (string, Table) -> LineResult, lines: seq<string>, t: Table)
    requires forall l, u :: WholeLines(step(l, u).out)
    ensures WholeLines(Loop(step, lines, t).out)
    decreases |lines|
  {
    if |lines| > 0 {
      var l := step(lines[0], t);
      if l.end.Next? {
        LoopWritesLines(step, lines[1..], l.table);
        ConcatLines(l.out, Loop(step, lines[1..], l.table).out);
      }
    }
  }

  lemma {:induction false} LoopSkips(step: (string, Table) -> LineResult, a: seq<string>, b: seq<string>, t: Table)
    requires forall i :: 0 <= i < |a| ==> step(a[i], t) == LineResult(t, "", Next)
    ensures Loop(step, a + b, t) == Loop(step, b, t)
    decreases |a|
  {
    if |a| > 0 {
      assert (a + b)[0] == a[0];
      assert (a + b)[1..] == a[1..] + b;
      forall i | 0 <= i < |a[1..]|
        ensures step(a[1..][i], t) == LineResult(t, "", Next)
      {
        assert a[1..][i] == a[i + 1];
      }
      LoopSkips(step, a[1..], b, t);
    } else {
      assert a + b == b;
    }
  }

  // ---------------------------------------------------------------------
  // Sessions.

  /** Processing two blocks of lines in a row is processing their
      concatenation. */
  lemma ProcessConcat(a: seq<string>, b: seq<string>, t: Table)
    ensures ProcessCommands(a + b, t) == Resume(ProcessLine, ProcessCommands(a, t), b)
  {
    LoopConcat(ProcessLine, a, b, t);
  }

  /** Once EXIT has run, or the lexer has hung, the lines after it are never
      read. */
  lemma LaterLinesIgnored(a: seq<string>, b: seq<string>, t: Table)
    requires !ProcessCommands(a, t).end.EndOfInput?
    ensures ProcessCommands(a + b, t) == ProcessCommands(a, t)
  {
    LoopConcat(ProcessLine, a, b, t);
  }

  /** Lines that are empty once stripped change nothing and write nothing. */
  lemma BlankLinesAreSkipped(a: seq<string>, b: seq<string>, t: Table)
    requires forall i :: 0 <= i < |a| ==> Strip(a[i]) == ""
    ensures ProcessCommands(a + b, t) == ProcessCommands(b, t)
  {
    LoopSkips(ProcessLine, a, b, t);
  }

  /** What `process_commands` writes is a sequence of whole lines. */
  lemma SessionWritesLines(lines: seq<string>, t: Table)
    ensures WholeLines(ProcessCommands(lines, t).out)
  {
    forall l, u ensures WholeLines(ProcessLine(l, u).out) {
      LineWritesLines(l, u);
    }
    LoopWritesLines(ProcessLine, lines, t);
  }

  lemma ConcatLines(a: string, b: string)
    requires WholeLines(a) && WholeLines(b)
    ensures WholeLines(a + b)
  {
    if |b| > 0 {
      assert (a + b)[|a + b| - 1] == b[|b| - 1];
    } else {
      assert a + b == a;
    }
  }

  // ---------------------------------------------------------------------
  // Lines.

  /** Every message of a line ends the output line it starts. */
  lemma LineWritesLines(raw: string, t: Table)
    ensures WholeLines(ProcessLine(raw, t).out)
  {
    var line := Strip(raw);
    if !(|line| > 0 && !EndsWith(line, ";")) && Lex(line).Tokens? && |Lex(line).tokens| > 0 {
      match ParseProgram(Lex(line).tokens)
      case Failure(m) =>
      case Success(p) =>
        InterpretWritesLines(p, t);
    }
  }

  /** A run writes whole lines: each statement writes nothing or a line, and
      an error message is one line. */
  lemma {:induction false} InterpretWritesLines(p: seq<Statement>, t: Table)
    ensures WholeLines(Interpret(p, t).out)
    decreases |p|
  {
    if |p| > 0 {
      match Exec(p[0], t)
      case Continue(t', o) =>
        InterpretWritesLines(p[1..], t');
        ConcatLines(o, Interpret(p[1..], t').out);
      case Stop(o) =>
      case Raise(m) =>
        assert ("Error: " + m + "\n")[|"Error: " + m + "\n"| - 1] == '\n';
    }
  }

  /** A line the parser rejects reports the parser's message and changes no
      binding. */
  lemma ParseErrorKeepsTable(raw: string, t: Table)
    requires EndsWith(Strip(raw), ";") && Lex(Strip(raw)).Tokens? && |Lex(Strip(raw)).tokens| > 0
    requires ParseProgram(Lex(Strip(raw)).tokens).Failure?
    ensures ProcessLine(raw, t)
      == LineResult(t, LineError(Strip(raw), ParseProgram(Lex(Strip(raw)).tokens).error), Next)
  {
  }

  /** A line that lexes to the rendering of a program runs that program. */
  lemma RunsRenderedProgram(raw: string, p: seq<Statement>, t: Table)
    requires EndsWith(Strip(raw), ";") && |p| > 0
    requires Lex(Strip(raw)) == Tokens(ProgramTokens(p))
    ensures ProcessLine(raw, t).table == Interpret(p, t).table
    ensures ProcessLine(raw, t).out == Interpret(p, t).out
    ensures ProcessLine(raw, t).end.Quit? <==> Interpret(p, t).status.Exited?
  {
    ProgramRoundTrip(p);
    assert |ProgramTokens(p)| > 0 by {
      assert ProgramTokens(p) == StatementTokens(p[0]) + ProgramTokens(p[1..]);
    }
  }
}
