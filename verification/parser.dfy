/** The recursive-descent parser. It consumes the token list from the front
    and yields the statements of one line, or the message of the error it
    raises. Every parsing function returns what is left of the list. */
module Parser {
  import opened Wrappers
  import opened Tokens

  /** An operand of an expression: the token the parser accepted, unchanged. */
  datatype Value = Ident(name: string) | Const(c: ConstName) | Lit(text: string)

  /** The values of an expression, to be concatenated in order. */
  type Expression = seq<Value>

  datatype Statement =
    | Set(id: string, expr: Expression)
    | Append(id: string, expr: Expression)
    | Reverse(id: string)
    | List
    | Exit
    | Print(expr: Expression)
    | PrintLength(expr: Expression)
    | PrintWords(expr: Expression)
    | PrintWordCount(expr: Expression)

  /** The token a value was parsed from. */
  function ValueToken(v: Value): Token {
    match v
    case Ident(x) => Id(x)
    case Const(c) => Constant(c)
    case Lit(t) => Literal(t)
  }

  predicate IsValueToken(t: Token) {
    t.Id? || t.Constant? || t.Literal?
  }

  /** `parse_value`: pops one token, which must be an ID, a CONSTANT or a
      LITERAL. */
  function ParseValue(ts: seq<Token>): (r: Result<(Value, seq<Token>)>)
    ensures |ts| == 0 ==> r == Failure("Incomplete value")
    ensures |ts| > 0 && !IsValueToken(ts[0]) ==> r == Failure("Invalid value: " + KindName(ts[0]))
    ensures r.Success? <==> |ts| > 0 && IsValueToken(ts[0])
    ensures r.Success? ==> ValueToken(r.value.0) == ts[0] && r.value.1 == ts[1..]
  {
    if |ts| == 0 then Failure("Incomplete value")
    else
      match ts[0]
      case Id(x) => Success((Ident(x), ts[1..]))
      case Constant(c) => Success((Const(c), ts[1..]))
      case Literal(t) => Success((Lit(t), ts[1..]))
      case _ => Failure("Invalid value: " + KindName(ts[0]))
  }

  /** Discards one PLUS at the front, if there is one. */
  function DropPlus(ts: seq<Token>): (r: seq<Token>)
    ensures |r| <= |ts|
  {
    if |ts| > 0 && ts[0] == Plus then ts[1..] else ts
  }

  /** `parse_expression`: values up to an END token, which is consumed, or up
      to the end of the list. At most one PLUS is discarded after each value. */
  function ParseExpression(ts: seq<Token>): (r: Result<(Expression, seq<Token>)>)
    decreases |ts|
    ensures r.Success? ==> |r.value.1| <= |ts|
    ensures r.Success? && |ts| > 0 ==> |r.value.1| < |ts|
    ensures r.Failure? ==> exists t :: r.error == "Invalid value: " + KindName(t)
  {
    if |ts| == 0 then Success(([], ts))
    else if ts[0] == End then Success(([], ts[1..]))
    else
      var (v, rest) :- ParseValue(ts);
      var (vs, rest') :- ParseExpression(DropPlus(rest));
      Success(([v] + vs, rest'))
  }

  /** `consume_end_token`: the next token must be END, and is popped. */
  function ConsumeEnd(ts: seq<Token>): (r: Result<seq<Token>>)
    ensures r.Success? <==> |ts| > 0 && ts[0] == End
    ensures r.Success? ==> r.value == ts[1..]
    ensures r.Failure? ==> r.error == "Missing statement terminator ';'"
  {
    if |ts| == 0 || ts[0] != End then Failure("Missing statement terminator ';'")
    else Success(ts[1..])
  }

  /** The keywords whose statement takes an identifier. */
  predicate TakesIdentifier(k: Keyword) {
    k == KSet || k == KAppend || k == KReverse
  }

  /** The keywords whose statement is an expression alone. */
  predicate IsPrintKeyword(k: Keyword) {
    k == KPrint || k == KPrintLength || k == KPrintWords || k == KPrintWordCount
  }

  function ExpectedIdentifier(k: Keyword): string {
    "Expected identifier after '" + KeywordText(k) + "'"
  }

  /** `parse_statement`. */
  function ParseStatement(ts: seq<Token>): (r: Result<(Statement, seq<Token>)>)
    ensures r.Success? ==> |r.value.1| < |ts|
    ensures |ts| == 0 ==> r == Failure("Incomplete statement")
    ensures |ts| > 0 && !ts[0].Kw? ==> r == Failure("Invalid statement start: " + KindName(ts[0]))
    ensures |ts| > 0 && ts[0].Kw? && TakesIdentifier(ts[0].keyword) && (|ts| < 2 || !ts[1].Id?) ==>
              r == Failure(ExpectedIdentifier(ts[0].keyword))
    ensures |ts| == 1 && ts[0].Kw? && IsPrintKeyword(ts[0].keyword) ==>
              r == Failure("Unhandled statement type: " + KindName(ts[0]))
  {
    if |ts| == 0 then Failure("Incomplete statement")
    else
      var t := ts[0];
      var rest := ts[1..];
      if !t.Kw? then Failure("Invalid statement start: " + KindName(t))
      else
        match t.keyword
        case KSet =>
          if |rest| == 0 || !rest[0].Id? then Failure(ExpectedIdentifier(KSet))
          else
            var (e, rest') :- ParseExpression(rest[1..]);
            Success((Set(rest[0].ident, e), rest'))
        case KAppend =>
          if |rest| == 0 || !rest[0].Id? then Failure(ExpectedIdentifier(KAppend))
          else
            var (e, rest') :- ParseExpression(rest[1..]);
            Success((Append(rest[0].ident, e), rest'))
        case KReverse =>
          if |rest| == 0 || !rest[0].Id? then Failure(ExpectedIdentifier(KReverse))
          else
            var rest' :- ConsumeEnd(rest[1..]);
            Success((Reverse(rest[0].ident), rest'))
        case KList =>
          var rest' :- ConsumeEnd(rest);
          Success((List, rest'))
        case KExit =>
          var rest' :- ConsumeEnd(rest);
          Success((Exit, rest'))
        case KPrint =>
          if |rest| == 0 then Failure("Unhandled statement type: " + KindName(t))
          else
            var (e, rest') :- ParseExpression(rest);
            Success((Print(e), rest'))
        case KPrintLength =>
          if |rest| == 0 then Failure("Unhandled statement type: " + KindName(t))
          else
            var (e, rest') :- ParseExpression(rest);
            Success((PrintLength(e), rest'))
        case KPrintWords =>
          if |rest| == 0 then Failure("Unhandled statement type: " + KindName(t))
          else
            var (e, rest') :- ParseExpression(rest);
            Success((PrintWords(e), rest'))
        case KPrintWordCount =>
          if |rest| == 0 then Failure("Unhandled statement type: " + KindName(t))
          else
            var (e, rest') :- ParseExpression(rest);
            Success((PrintWordCount(e), rest'))
  }

  /** LIST and EXIT must be followed by END, and so must REVERSE and its
      identifier; otherwise the statement is missing its terminator. */
  lemma Terminators(ts: seq<Token>)
    ensures |ts| > 0 && ts[0] in {Kw(KList), Kw(KExit)} ==>
              (ParseStatement(ts).Success? <==> |ts| > 1 && ts[1] == End)
    ensures |ts| >= 2 && ts[0] == Kw(KReverse) && ts[1].Id? ==>
              (ParseStatement(ts).Success? <==> |ts| > 2 && ts[2] == End)
    ensures ParseStatement(ts).Failure? && |ts| > 0
            && (ts[0] in {Kw(KList), Kw(KExit)} || (ts[0] == Kw(KReverse) && |ts| >= 2 && ts[1].Id?)) ==>
              ParseStatement(ts).error == "Missing statement terminator ';'"
  {
  }

  /** `parse_program`: statements until the token list is exhausted. */
  function ParseProgram(ts: seq<Token>): (r: Result<seq<Statement>>)
    decreases |ts|
    ensures |ts| == 0 ==> r == Success([])
    ensures r.Success? ==> |r.value| <= |ts|
    ensures |ts| > 0 && ParseStatement(ts).Failure? ==> r == Failure(ParseStatement(ts).error)
  {
    if |ts| == 0 then Success([])
    else
      var (s, rest) :- ParseStatement(ts);
      var ss :- ParseProgram(rest);
      Success([s] + ss)
  }

  // ---------------------------------------------------------------------
  // The token lists a program is parsed from: values joined by PLUS, every
  // statement closed by END.

  function ExprTokens(e: Expression): seq<Token> {
    if |e| == 0 then []
    else if |e| == 1 then [ValueToken(e[0])]
    else [ValueToken(e[0]), Plus] + ExprTokens(e[1..])
  }

  function StatementTokens(s: Statement): seq<Token> {
    match s
    case Set(x, e) => [Kw(KSet), Id(x)] + ExprTokens(e) + [End]
    case Append(x, e) => [Kw(KAppend), Id(x)] + ExprTokens(e) + [End]
    case Reverse(x) => [Kw(KReverse), Id(x), End]
    case List => [Kw(KList), End]
    case Exit => [Kw(KExit), End]
    case Print(e) => [Kw(KPrint)] + ExprTokens(e) + [End]
    case PrintLength(e) => [Kw(KPrintLength)] + ExprTokens(e) + [End]
    case PrintWords(e) => [Kw(KPrintWords)] + ExprTokens(e) + [End]
    case PrintWordCount(e) => [Kw(KPrintWordCount)] + ExprTokens(e) + [End]
  }

  function ProgramTokens(p: seq<Statement>): seq<Token> {
    if |p| == 0 then [] else StatementTokens(p[0]) + ProgramTokens(p[1..])
  }

  /** One value, then the rest of the expression after at most one PLUS. */
  lemma ExpressionCons(v: Value, ts: seq<Token>, vs: Expression, rest: seq<Token>)
    requires ParseExpression(DropPlus(ts)) == Success((vs, rest))
    ensures ParseExpression([ValueToken(v)] + ts) == Success(([v] + vs, rest))
  {
    var ts' := [ValueToken(v)] + ts;
    assert ts'[0] == ValueToken(v) && ts'[1..] == ts;
    assert ParseValue(ts') == Success((v, ts));
  }

  /** An END closes an empty expression. */
  lemma ExpressionEnd(rest: seq<Token>)
    ensures ParseExpression([End] + rest) == Success(([], rest))
  {
    assert ([End] + rest)[1..] == rest;
  }

  lemma SingleValueExpression(v: Value, rest: seq<Token>)
    ensures ParseExpression(ExprTokens([v]) + [End] + rest) == Success(([v], rest))
  {
    ExpressionEnd(rest);
    ExpressionCons(v, [End] + rest, [], rest);
    assert ExprTokens([v]) + [End] + rest == [ValueToken(v)] + ([End] + rest);
    assert [v] + [] == [v];
  }

  /** An expression is read back up to and including its END. */
  lemma {:induction false} ExpressionRoundTrip(e: Expression, rest: seq<Token>)
    ensures ParseExpression(ExprTokens(e) + [End] + rest) == Success((e, rest))
    decreases |e|
  {
    var ts := ExprTokens(e) + [End] + rest;
    if |e| == 0 {
      assert ts == [End] + rest;
      ExpressionEnd(rest);
    } else if |e| == 1 {
      SingleValueExpression(e[0], rest);
      assert [e[0]] == e;
    } else {
      var tail := ExprTokens(e[1..]) + [End] + rest;
      ExpressionRoundTrip(e[1..], rest);
      assert ExprTokens(e) == [ValueToken(e[0]), Plus] + ExprTokens(e[1..]);
      SplitAfterValue(ValueToken(e[0]), ExprTokens(e[1..]), rest);
      assert DropPlus([Plus] + tail) == tail;
      ExpressionCons(e[0], [Plus] + tail, e[1..], rest);
      assert [e[0]] + e[1..] == e;
    }
  }

  lemma SplitFirst(v: Token, more: seq<Token>)
    ensures [v, Plus] + more == [v] + ([Plus] + more)
  {
  }

  /** Regrouping the rendering of a value, a PLUS and the remaining values. */
  lemma SplitAfterValue(v: Token, more: seq<Token>, rest: seq<Token>)
    ensures [v, Plus] + more + [End] + rest == [v] + ([Plus] + (more + [End] + rest))
  {
  }

  /** Without its END an expression still parses, up to the end of the list. */
  lemma {:induction false} UnterminatedExpression(e: Expression)
    ensures ParseExpression(ExprTokens(e)) == Success((e, []))
    decreases |e|
  {
    if |e| == 1 {
      ExpressionCons(e[0], [], [], []);
      assert ExprTokens(e) == [ValueToken(e[0])] + [];
      assert [e[0]] + [] == e;
    } else if |e| > 1 {
      UnterminatedExpression(e[1..]);
      assert DropPlus([Plus] + ExprTokens(e[1..])) == ExprTokens(e[1..]);
      ExpressionCons(e[0], [Plus] + ExprTokens(e[1..]), e[1..], []);
      assert ExprTokens(e) == [ValueToken(e[0]), Plus] + ExprTokens(e[1..]);
      SplitFirst(ValueToken(e[0]), ExprTokens(e[1..]));
      assert [e[0]] + e[1..] == e;
    }
  }

  /** Whether a statement is one of the four PRINT forms. */
  predicate IsPrintStatement(s: Statement) {
    s.Print? || s.PrintLength? || s.PrintWords? || s.PrintWordCount?
  }

  lemma SetRoundTrip(x: string, e: Expression, rest: seq<Token>)
    ensures ParseStatement(StatementTokens(Set(x, e)) + rest) == Success((Set(x, e), rest))
  {
    var ts := StatementTokens(Set(x, e)) + rest;
    ExpressionRoundTrip(e, rest);
    assert ts[0] == Kw(KSet) && ts[1] == Id(x);
    assert ts[2..] == ExprTokens(e) + [End] + rest;
  }

  lemma AppendRoundTrip(x: string, e: Expression, rest: seq<Token>)
    ensures ParseStatement(StatementTokens(Append(x, e)) + rest) == Success((Append(x, e), rest))
  {
    var ts := StatementTokens(Append(x, e)) + rest;
    ExpressionRoundTrip(e, rest);
    assert ts[0] == Kw(KAppend) && ts[1] == Id(x);
    assert ts[2..] == ExprTokens(e) + [End] + rest;
  }

  lemma PrintRoundTrip(s: Statement, rest: seq<Token>)
    requires IsPrintStatement(s)
    ensures ParseStatement(StatementTokens(s) + rest) == Success((s, rest))
  {
    var body := ExprTokens(s.expr) + [End] + rest;
    PrintTokens(s);
    KeywordThenBody(Kw(Keyword(s)), ExprTokens(s.expr), rest);
    ExpressionRoundTrip(s.expr, rest);
    var ts := [Kw(Keyword(s))] + body;
    assert ts[0] == Kw(Keyword(s)) && ts[1..] == body;
    PrintStep(s, ts, rest);
  }

  /** The keyword a statement's rendering starts with. */
  function Keyword(s: Statement): Keyword {
    match s
    case Set(_, _) => KSet
    case Append(_, _) => KAppend
    case Reverse(_) => KReverse
    case List => KList
    case Exit => KExit
    case Print(_) => KPrint
    case PrintLength(_) => KPrintLength
    case PrintWords(_) => KPrintWords
    case PrintWordCount(_) => KPrintWordCount
  }

  lemma PrintTokens(s: Statement)
    requires IsPrintStatement(s)
    ensures StatementTokens(s) == [Kw(Keyword(s))] + ExprTokens(s.expr) + [End]
  {
  }

  lemma KeywordThenBody(k: Token, more: seq<Token>, rest: seq<Token>)
    ensures [k] + more + [End] + rest == [k] + (more + [End] + rest)
  {
  }

  /** A PRINT keyword followed by tokens that parse as the statement's
      expression. */
  lemma PrintStep(s: Statement, ts: seq<Token>, rest: seq<Token>)
    requires IsPrintStatement(s) && |ts| > 1 && ts[0] == Kw(Keyword(s))
    requires ParseExpression(ts[1..]) == Success((s.expr, rest))
    ensures ParseStatement(ts) == Success((s, rest))
  {
    match s
    case Print(e) =>
    case PrintLength(e) =>
    case PrintWords(e) =>
    case PrintWordCount(e) =>
  }

  lemma StatementRoundTrip(s: Statement, rest: seq<Token>)
    ensures ParseStatement(StatementTokens(s) + rest) == Success((s, rest))
  {
    match s
    case Set(x, e) => SetRoundTrip(x, e, rest);
    case Append(x, e) => AppendRoundTrip(x, e, rest);
    case Reverse(x) =>
    case List =>
    case Exit =>
    case _ => PrintRoundTrip(s, rest);
  }

  /** Parsing inverts the token rendering of a program. */
  lemma {:induction false} ProgramRoundTrip(p: seq<Statement>)
    ensures ParseProgram(ProgramTokens(p)) == Success(p)
    decreases |p|
  {
    if |p| > 0 {
      var ts := ProgramTokens(p);
      StatementRoundTrip(p[0], ProgramTokens(p[1..]));
      ProgramRoundTrip(p[1..]);
      assert |StatementTokens(p[0])| > 0;
      assert [p[0]] + p[1..] == p;
    }
  }

  // ---------------------------------------------------------------------
  // How loosely PLUS is checked.

  /** An expression cannot start with PLUS. */
  lemma LeadingPlus(ts: seq<Token>)
    ensures ParseExpression([Plus] + ts) == Failure("Invalid value: PLUS")
  {
  }

  /** Two PLUS tokens in a row are rejected at the second. */
  lemma DoublePlus(v: Value, ts: seq<Token>)
    ensures ParseExpression([ValueToken(v), Plus, Plus] + ts) == Failure("Invalid value: PLUS")
  {
    assert ([ValueToken(v), Plus, Plus] + ts)[1..] == [Plus] + ([Plus] + ts);
    LeadingPlus([Plus] + ts);
    assert ([Plus] + ([Plus] + ts))[1..] == [Plus] + ts;
  }

  /** A PLUS just before the END is accepted and dropped. */
  lemma TrailingPlus(v: Value, ts: seq<Token>)
    ensures ParseExpression([ValueToken(v), Plus, End] + ts) == Success(([v], ts))
  {
    assert DropPlus([Plus, End] + ts) == [End] + ts;
    assert ParseExpression([End] + ts) == Success(([], ts));
    ExpressionCons(v, [Plus, End] + ts, [], ts);
    assert [ValueToken(v)] + ([Plus, End] + ts) == [ValueToken(v), Plus, End] + ts;
    assert [v] + [] == [v];
  }

  /** Two values with no PLUS between them are accepted as two operands. */
  lemma Juxtaposed(v: Value, w: Value, ts: seq<Token>)
    ensures ParseExpression([ValueToken(v), ValueToken(w), End] + ts) == Success(([v, w], ts))
  {
    ExpressionRoundTrip([w], ts);
    assert ExprTokens([w]) + [End] + ts == [ValueToken(w), End] + ts;
    assert DropPlus([ValueToken(w), End] + ts) == [ValueToken(w), End] + ts;
    ExpressionCons(v, [ValueToken(w), End] + ts, [w], ts);
    assert [ValueToken(v)] + ([ValueToken(w), End] + ts) == [ValueToken(v), ValueToken(w), End] + ts;
    assert [v] + [w] == [v, w];
  }
}
