/** The evaluator: runs the statements of one parsed line against the symbol
    table and collects what they write to the output file. */
module Interpreter {
  import opened Wrappers
  import opened Strings
  import opened Tokens
  import opened Parser
  import opened SymbolTable
  import opened Words

  /** The one-character string a named constant stands for. */
  function ConstValue(c: ConstName): (r: string)
    ensures |r| == 1 && IsSpace(r[0])
  {
    match c
    case Space => " "
    case Tab => "\t"
    case Newline => "\n"
  }

  /** `evaluate_value`: an unbound identifier evaluates to the empty string. */
  function EvalValue(v: Value, t: Table): (r: string)
    ensures v.Ident? && v.name in Keys(t) ==> Get(t, v.name) == Some(r)
    ensures v.Ident? && v.name !in Keys(t) ==> r == ""
    ensures v.Const? ==> r == ConstValue(v.c)
    ensures v.Lit? ==> r == v.text
  {
    match v
    case Ident(x) => Get(t, x).GetOr("")
    case Const(c) => ConstValue(c)
    case Lit(s) => s
  }

  /** `evaluate_expression`: the values concatenated in order. */
  function EvalExpr(e: Expression, t: Table): (r: string)
    ensures |e| == 0 ==> r == ""
    ensures |e| == 1 ==> r == EvalValue(e[0], t)
  {
    if |e| == 0 then "" else EvalValue(e[0], t) + EvalExpr(e[1..], t)
  }

  /** Evaluation distributes over concatenation of expressions. */
  lemma {:induction false} EvalExprConcat(e1: Expression, e2: Expression, t: Table)
    ensures EvalExpr(e1 + e2, t) == EvalExpr(e1, t) + EvalExpr(e2, t)
    decreases |e1|
  {
    if |e1| == 0 {
      assert e1 + e2 == e2;
    } else {
      var e, rest := e1 + e2, e1[1..];
      var h, a, b := EvalValue(e1[0], t), EvalExpr(rest, t), EvalExpr(e2, t);
      assert EvalExpr(e, t) == h + (a + b) by {
        assert e[0] == e1[0];
        assert e[1..] == rest + e2;
        EvalExprCons(e, t);
        EvalExprConcat(rest, e2, t);
      }
      EvalExprCons(e1, t);
      AppendAssoc(h, a, b);
    }
  }

  /** The value in front is evaluated first. */
  lemma EvalExprCons(e: Expression, t: Table)
    requires |e| > 0
    ensures EvalExpr(e, t) == EvalValue(e[0], t) + EvalExpr(e[1..], t)
  {
  }

  predicate ReadsNoIdentifier(e: Expression) {
    forall i :: 0 <= i < |e| ==> !e[i].Ident?
  }

  /** An expression without identifiers means the same in every table. */
  lemma {:induction false} EvalExprClosed(e: Expression, t: Table, t': Table)
    requires ReadsNoIdentifier(e)
    ensures EvalExpr(e, t) == EvalExpr(e, t')
    decreases |e|
  {
    if |e| > 0 {
      assert !e[0].Ident?;
      EvalExprClosed(e[1..], t, t');
    }
  }

  /** The line a LIST writes for binding `k` to `v`. */
  function Entry(k: string, v: string): string {
    k + ": " + v + "\n"
  }

  /** The `k: v` lines of a LIST, in table order. */
  function Entries(t: Table): string {
    if |t| == 0 then "" else Entry(t[0].0, t[0].1) + Entries(t[1..])
  }

  /** What a LIST writes. The table's length is the dict's `len`, as its keys
      are distinct. */
  function ListText(t: Table): string {
    "Identifier list (" + NatToString(|t|) + "):\n" + Entries(t)
  }

  lemma {:induction false} EntriesSnoc(t: Table, k: string, v: string)
    ensures Entries(t + [(k, v)]) == Entries(t) + Entry(k, v)
    decreases |t|
  {
    if |t| == 0 {
      assert t + [(k, v)] == [(k, v)];
    } else {
      EntriesSnoc(t[1..], k, v);
      assert (t + [(k, v)])[0] == t[0];
      assert (t + [(k, v)])[1..] == t[1..] + [(k, v)];
      var h := Entry(t[0].0, t[0].1);
      assert h + (Entries(t[1..]) + Entry(k, v)) == (h + Entries(t[1..])) + Entry(k, v);
    }
  }

  /** A LIST writes whole lines. */
  lemma ListTextEndsLine(t: Table)
    ensures |ListText(t)| > 0 && ListText(t)[|ListText(t)| - 1] == '\n'
  {
    EntriesEndsLine(t);
  }

  lemma {:induction false} EntriesEndsLine(t: Table)
    ensures |Entries(t)| == 0 <==> |t| == 0
    ensures |t| > 0 ==> Entries(t)[|Entries(t)| - 1] == '\n'
    decreases |t|
  {
    if |t| > 0 {
      EntriesEndsLine(t[1..]);
    }
  }

  /** The words of a value in reverse order, joined by single spaces. */
  function ReversedText(v: string): string {
    Join(Strings.Reverse(GetWords(v)), " ")
  }

  /** The result of one statement. */
  datatype Outcome =
    | Continue(table: Table, out: string)
    | Stop(out: string)
    | Raise(message: string)

  /** The statements that only write to the output. */
  predicate IsOutputStatement(s: Statement) {
    s.List? || s.Print? || s.PrintLength? || s.PrintWords? || s.PrintWordCount?
  }

  /** The body of the `try` in `interpret`, for one statement. */
  function Exec(s: Statement, t: Table): (r: Outcome)
    ensures r.Stop? <==> s.Exit?
    ensures r.Raise? <==> s.Reverse? && s.id !in Keys(t)
    ensures r.Raise? ==> r.message == "Undefined variable: " + s.id
    ensures r.Continue? && IsOutputStatement(s) ==> r.table == t && |r.out| > 0 && r.out[|r.out| - 1] == '\n'
    ensures r.Continue? && !IsOutputStatement(s) ==> r.out == ""
    ensures r.Continue? && DistinctKeys(t) ==> DistinctKeys(r.table)
  {
    match s
    case Append(x, e) =>
      var v := EvalExpr(e, t);
      (match Get(t, x)
       case Some(cur) => Continue(Put(t, x, cur + v), "")
       case None => Continue(Put(t, x, v), ""))
    case List => ListTextEndsLine(t); Continue(t, ListText(t))
    case Exit => Stop("Exiting the interpreter.\n")
    case Print(e) => Continue(t, EvalExpr(e, t) + "\n")
    case PrintLength(e) =>
      Continue(t, "Length is: " + NatToString(|EvalExpr(e, t)|) + "\n")
    case PrintWords(e) =>
      Continue(t, "Words are:\n" + Join(GetWords(EvalExpr(e, t)), "\n") + "\n")
    case PrintWordCount(e) =>
      Continue(t, "Wordcount is: " + NatToString(|GetWords(EvalExpr(e, t))|) + "\n")
    case Set(x, e) => Continue(Put(t, x, EvalExpr(e, t)), "")
    case Reverse(x) =>
      (match Get(t, x)
       case Some(v) => Continue(Put(t, x, ReversedText(v)), "")
       case None => Raise("Undefined variable: " + x))
  }

  /** A statement that binds adds its identifier to the table if it was
      not there, and no other key. */
  lemma ExecKeys(s: Statement, t: Table)
    requires Exec(s, t).Continue? && !IsOutputStatement(s)
    ensures Keys(Exec(s, t).table) == Keys(Put(t, s.id, ""))
  {
  }

  datatype Status = Completed | Aborted | Exited

  /** The table after a run, what the run wrote, and how it ended. An
      aborted run and a completed one both return `None` to the caller. */
  datatype Run = Run(table: Table, out: string, status: Status)

  /** `interpret`. A raised error is written as `Error: ...` and ends the
      line: the recovery loop looks for a statement tagged END, and no
      statement is, so every remaining statement is skipped. */
  function Interpret(p: seq<Statement>, t: Table): (r: Run)
    ensures DistinctKeys(t) ==> DistinctKeys(r.table)
    ensures r.status.Exited? ==> exists i :: 0 <= i < |p| && p[i].Exit?
    ensures r.status.Aborted? ==> exists i :: 0 <= i < |p| && p[i].Reverse?
    decreases |p|
  {
    if |p| == 0 then Run(t, "", Completed)
    else
      match Exec(p[0], t)
      case Continue(t', o) =>
        var r := Interpret(p[1..], t');
        Run(r.table, o + r.out, r.status)
      case Stop(o) => Run(t, o, Exited)
      case Raise(m) => Run(t, "Error: " + m + "\n", Aborted)
  }

  // ---------------------------------------------------------------------
  // Statements.

  /** SET binds the identifier to the expression's value and leaves every
      other binding as it was. */
  lemma SetStores(x: string, e: Expression, t: Table, k: string)
    ensures Exec(Set(x, e), t).Continue?
    ensures Get(Exec(Set(x, e), t).table, x) == Some(EvalExpr(e, t))
    ensures k != x ==> Get(Exec(Set(x, e), t).table, k) == Get(t, k)
  {
    PutGet(t, x, EvalExpr(e, t));
    if k != x {
      PutOther(t, x, EvalExpr(e, t), k);
    }
  }

  /** APPEND x e is SET x to x + e: an unbound identifier reads as "". */
  lemma AppendIsSetOfConcat(x: string, e: Expression, t: Table)
    ensures Exec(Append(x, e), t) == Exec(Set(x, [Ident(x)] + e), t)
  {
    EvalExprConcat([Ident(x)], e, t);
    var v := EvalExpr(e, t);
    assert EvalExpr([Ident(x)] + e, t) == Get(t, x).GetOr("") + v;
    match Get(t, x)
    case Some(cur) =>
      assert Exec(Append(x, e), t) == Continue(Put(t, x, cur + v), "");
    case None =>
      assert "" + v == v;
  }

  /** APPEND to an unbound identifier is SET. */
  lemma AppendUnboundIsSet(x: string, e: Expression, t: Table)
    requires x !in Keys(t)
    ensures Exec(Append(x, e), t) == Exec(Set(x, e), t)
  {
  }

  /** REVERSE leaves the value's words in reverse order. */
  lemma ReverseReversesWords(x: string, t: Table)
    requires x in Keys(t)
    ensures Exec(Reverse(x), t).Continue?
    ensures var v := Get(t, x).value;
      && Get(Exec(Reverse(x), t).table, x) == Some(ReversedText(v))
      && GetWords(ReversedText(v)) == Strings.Reverse(GetWords(v))
  {
    var v := Get(t, x).value;
    PutGet(t, x, ReversedText(v));
    var ws := GetWords(v);
    var rs := Strings.Reverse(ws);
    GetWordsAreWords(v);
    assert forall k :: 0 <= k < |rs| ==> IsWord(rs[k]) by {
      assert forall k :: 0 <= k < |rs| ==> rs[k] == ws[|ws| - 1 - k];
    }
    AllWordsIndex(rs);
    GetWordsOfJoin(rs);
  }

  /** Two REVERSEs leave the value's words in their original order, joined
      by single spaces. */
  lemma ReverseTwice(x: string, t: Table)
    requires x in Keys(t)
    ensures Interpret([Reverse(x), Reverse(x)], t)
         == Run(Put(t, x, Join(GetWords(Get(t, x).value), " ")), "", Completed)
  {
    var v := Get(t, x).value;
    var ws := GetWords(v);
    ReverseReversesWords(x, t);
    var t1 := Put(t, x, ReversedText(v));
    assert ReversedText(ReversedText(v)) == Join(ws, " ") by {
      ReverseReverse(ws);
    }
    PutPut(t, x, ReversedText(v), Join(ws, " "));
    ExecReverse(x, t);
    ExecReverse(x, t1);
    InterpretTwo(Reverse(x), Reverse(x), t);
  }

  /** REVERSE of a bound identifier rebinds it to its reversed words. */
  lemma ExecReverse(x: string, t: Table)
    requires x in Keys(t)
    ensures Exec(Reverse(x), t) == Continue(Put(t, x, ReversedText(Get(t, x).value)), "")
  {
  }

  /** Two statements that both continue. */
  lemma InterpretTwo(s1: Statement, s2: Statement, t: Table)
    requires Exec(s1, t).Continue? && Exec(s2, Exec(s1, t).table).Continue?
    ensures var t1 := Exec(s1, t).table;
      Interpret([s1, s2], t)
      == Run(Exec(s2, t1).table, Exec(s1, t).out + Exec(s2, t1).out, Completed)
  {
    var t1 := Exec(s1, t).table;
    var e2 := Exec(s2, t1);
    assert Interpret([s2], t1) == Run(e2.table, e2.out, Completed) by {
      assert [s2][0] == s2 && [s2][1..] == [];
      assert Interpret([], e2.table) == Run(e2.table, "", Completed);
      assert e2.out + "" == e2.out;
    }
    assert [s1, s2][0] == s1 && [s1, s2][1..] == [s2];
  }

  /** PRINTLENGTH writes a number that reads back as the value's length. */
  lemma PrintLengthReadsBack(e: Expression, t: Table)
    ensures var o := Exec(PrintLength(e), t).out;
      && |o| > 12 && o[..11] == "Length is: " && o[|o| - 1] == '\n'
      && (forall i :: 11 <= i < |o| - 1 ==> IsAsciiDigit(o[i]))
      && DecimalValue(o[11..|o| - 1]) == |EvalExpr(e, t)|
  {
    var n := |EvalExpr(e, t)|;
    var d := NatToString(n);
    var o := "Length is: " + d + "\n";
    assert o[11..|o| - 1] == d;
    DecimalRoundTrip(n);
  }

  /** PRINTWORDCOUNT writes a number that reads back as the number of words
      PRINTWORDS lists. */
  lemma WordCountReadsBack(e: Expression, t: Table)
    ensures var o := Exec(PrintWordCount(e), t).out;
      && |o| > 15 && o[..14] == "Wordcount is: " && o[|o| - 1] == '\n'
      && (forall i :: 14 <= i < |o| - 1 ==> IsAsciiDigit(o[i]))
      && DecimalValue(o[14..|o| - 1]) == |GetWords(EvalExpr(e, t))|
  {
    var n := |GetWords(EvalExpr(e, t))|;
    var d := NatToString(n);
    var o := "Wordcount is: " + d + "\n";
    assert o[14..|o| - 1] == d;
    DecimalRoundTrip(n);
  }

  /** Each string of `ws` on a line of its own. */
  function Lines(ws: seq<string>): string {
    if |ws| == 0 then "" else ws[0] + "\n" + Lines(ws[1..])
  }

  /** Joining with newlines and ending the last line puts each element on a
      line of its own. */
  lemma {:induction false} JoinLines(ws: seq<string>)
    requires |ws| > 0
    ensures Join(ws, "\n") + "\n" == Lines(ws)
    decreases |ws|
  {
    if |ws| > 1 {
      JoinLines(ws[1..]);
      assert Join(ws, "\n") + "\n" == ws[0] + "\n" + (Join(ws[1..], "\n") + "\n");
    }
  }

  /** PRINTWORDS writes its header line and then each word of the value on a
      line of its own, or one empty line when there are none; no word holds
      a newline, so the lines are exactly the words. */
  lemma PrintWordsLines(e: Expression, t: Table)
    ensures var ws := GetWords(EvalExpr(e, t));
      Exec(PrintWords(e), t).out == "Words are:\n" + (if |ws| == 0 then "\n" else Lines(ws))
    ensures forall w, i :: w in GetWords(EvalExpr(e, t)) && 0 <= i < |w| ==> w[i] != '\n'
  {
    var ws := GetWords(EvalExpr(e, t));
    HeaderThenLines(ws);
    WordsHaveNoNewline(EvalExpr(e, t));
  }

  lemma HeaderThenLines(ws: seq<string>)
    ensures "Words are:\n" + Join(ws, "\n") + "\n" == "Words are:\n" + (if |ws| == 0 then "\n" else Lines(ws))
  {
    if |ws| > 0 {
      JoinLines(ws);
      assert "Words are:\n" + Join(ws, "\n") + "\n" == "Words are:\n" + (Join(ws, "\n") + "\n");
    }
  }

  /** LIST after binding a new identifier shows it last. */
  lemma ListAfterNewBinding(t: Table, k: string, v: string)
    requires k !in Keys(t)
    ensures ListText(Put(t, k, v))
         == "Identifier list (" + NatToString(|t| + 1) + "):\n" + Entries(t) + Entry(k, v)
  {
    PutNew(t, k, v);
    EntriesSnoc(t, k, v);
    var h := "Identifier list (" + NatToString(|t| + 1) + "):\n";
    assert h + (Entries(t) + Entry(k, v)) == h + Entries(t) + Entry(k, v);
  }

  // ---------------------------------------------------------------------
  // Runs.

  /** Running `q` after a run that reached the end of its statements. */
  function Then(r: Run, q: seq<Statement>): Run {
    if r.status.Completed? then
      var r' := Interpret(q, r.table);
      Run(r'.table, r.out + r'.out, r'.status)
    else r
  }

  /** Running two statement lists in a row is running their concatenation. */
  lemma {:induction false} InterpretConcat(p: seq<Statement>, q: seq<Statement>, t: Table)
    ensures Interpret(p + q, t) == Then(Interpret(p, t), q)
    decreases |p|
  {
    if |p| == 0 {
      assert p + q == q;
    } else {
      assert (p + q)[0] == p[0];
      assert (p + q)[1..] == p[1..] + q;
      match Exec(p[0], t)
      case Continue(t', o) =>
        InterpretConcat(p[1..], q, t');
        assert o + Interpret(p[1..], t').out + Interpret(q, Interpret(p[1..], t').table).out
            == o + (Interpret(p[1..], t').out + Interpret(q, Interpret(p[1..], t').table).out);
      case Stop(o) =>
      case Raise(m) =>
    }
  }

  /** After an error or EXIT nothing more of the line runs. */
  lemma HaltDiscardsRest(p: seq<Statement>, q: seq<Statement>, t: Table)
    requires !Interpret(p, t).status.Completed?
    ensures Interpret(p + q, t) == Interpret(p, t)
  {
    InterpretConcat(p, q, t);
  }

  /** A statement that raises ends the line with its error message. */
  lemma ErrorEndsLine(s: Statement, q: seq<Statement>, t: Table)
    requires Exec(s, t).Raise?
    ensures Interpret([s] + q, t) == Run(t, "Error: " + Exec(s, t).message + "\n", Aborted)
  {
    HaltDiscardsRest([s], q, t);
  }

  /** EXIT after a completed run writes its farewell line and ends the line:
      the table stays as the statements before it left it, and nothing after
      it runs. */
  lemma ExitEndsLine(p: seq<Statement>, q: seq<Statement>, t: Table)
    requires Interpret(p, t).status.Completed?
    ensures var r := Interpret(p, t);
      Interpret(p + [Exit] + q, t) == Run(r.table, r.out + "Exiting the interpreter.\n", Exited)
  {
    var r := Interpret(p, t);
    assert p + [Exit] + q == p + ([Exit] + q);
    InterpretConcat(p, [Exit] + q, t);
    assert ([Exit] + q)[0] == Exit;
    assert Interpret([Exit] + q, r.table) == Run(r.table, "Exiting the interpreter.\n", Exited);
  }
}
