/** The lexer: an ordered, first-match pattern table applied at a cursor that
    moves through the input, dropping characters no pattern matches. Each
    regular expression of the table is modelled by a deterministic scanner. */
module Lexer {
  import opened Wrappers
  import opened Strings
  import opened Tokens

  datatype Pattern =
    | KeywordPattern(keyword: Keyword)   // the keyword's lower-case spelling
    | ConstantPattern                    // SPACE|TAB|NEWLINE
    | EndPattern                         // ;
    | PlusPattern                        // \+
    | LiteralPattern                     // "(?:\\.|[^"\\])*"
    | IdPattern                          // [a-zA-Z][a-zA-Z0-9]*

  /** The pattern table, tried in this order at every cursor position. */
  const TokenPatterns: seq<Pattern> := [
    KeywordPattern(KAppend),
    KeywordPattern(KPrintWordCount),
    KeywordPattern(KPrintWords),
    KeywordPattern(KPrintLength),
    KeywordPattern(KList),
    KeywordPattern(KExit),
    KeywordPattern(KPrint),
    KeywordPattern(KSet),
    KeywordPattern(KReverse),
    ConstantPattern,
    EndPattern,
    PlusPattern,
    LiteralPattern,
    IdPattern
  ]

  /** A match at the front of the input: the token it yields, the length of
      the matched text, and how far the cursor moves past it. */
  datatype Match = Match(token: Token, matched: nat, advance: nat)

  /** `(?:\\.|[^"\\])*` matches all of `b`: a sequence of units, each either a
      backslash followed by any character but a newline, or one character
      other than a quote and a backslash. At most one kind of unit can start
      at any position, so the units are determined left to right. */
  predicate IsLiteralBody(b: string)
    decreases |b|
  {
    if |b| == 0 then true
    else if b[0] == '\\' then |b| >= 2 && b[1] != '\n' && IsLiteralBody(b[2..])
    else b[0] != '"' && IsLiteralBody(b[1..])
  }

  /** After an opening quote ending at `i`, the literal pattern can match with
      body `s[i..j]` and the closing quote at `j`. */
  predicate ClosesAt(s: string, i: nat, j: nat) {
    i <= j < |s| && IsLiteralBody(s[i..j]) && s[j] == '"'
  }

  /** Scans a literal body from `i` and returns the position just after the
      first unescaped quote, or None when the input ends (or a backslash is
      followed by a newline or by nothing) first. */
  function ScanLiteral(s: string, i: nat): (r: Option<nat>)
    requires i <= |s|
    decreases |s| - i
    ensures r.Some? ==> i < r.value <= |s|
  {
    if i == |s| then None
    else if s[i] == '"' then Some(i + 1)
    else if s[i] == '\\' then
      if i + 1 < |s| && s[i + 1] != '\n' then ScanLiteral(s, i + 2) else None
    else ScanLiteral(s, i + 1)
  }

  /** What the scanner finds is a match of the literal pattern. */
  lemma {:induction false} ScanLiteralSound(s: string, i: nat)
    requires i <= |s|
    requires ScanLiteral(s, i).Some?
    ensures ClosesAt(s, i, ScanLiteral(s, i).value - 1)
    decreases |s| - i
  {
    var j := ScanLiteral(s, i).value - 1;
    if s[i] == '"' {
      assert s[i..j] == "";
    } else if s[i] == '\\' {
      ScanLiteralSound(s, i + 2);
      assert s[i..j][2..] == s[i + 2..j];
    } else {
      ScanLiteralSound(s, i + 1);
      assert s[i..j][1..] == s[i + 1..j];
    }
  }

  /** Every match of the literal pattern is the one the scanner finds: the
      regular expression admits exactly one closing quote, so backtracking
      cannot yield a different match. */
  lemma {:induction false} ScanLiteralComplete(s: string, i: nat, j: nat)
    requires ClosesAt(s, i, j)
    ensures ScanLiteral(s, i) == Some(j + 1)
    decreases j - i
  {
    var b := s[i..j];
    if |b| == 0 {
      assert s[i] == '"';
    } else if b[0] == '\\' {
      assert b[2..] == s[i + 2..j];
      ScanLiteralComplete(s, i + 2, j);
    } else {
      assert b[1..] == s[i + 1..j];
      ScanLiteralComplete(s, i + 1, j);
    }
  }

  /** `re.sub(r'\\(.)', r'\1', b)`: scanning left to right, every backslash
      followed by a character other than a newline is replaced by that
      character. */
  function Unescape(b: string): (v: string)
    ensures |v| <= |b|
    ensures |v| == 0 <==> |b| == 0
  {
    if |b| == 0 then ""
    else if b[0] == '\\' && |b| >= 2 && b[1] != '\n' then [b[1]] + Unescape(b[2..])
    else [b[0]] + Unescape(b[1..])
  }

  /** A literal body denoting `v`: every quote and backslash is escaped. */
  function Escape(v: string): (b: string)
    ensures IsLiteralBody(b)
    ensures Unescape(b) == v
    ensures |b| >= |v|
  {
    if |v| == 0 then ""
    else if v[0] == '"' || v[0] == '\\' then
      var b := ['\\', v[0]] + Escape(v[1..]);
      assert b[2..] == Escape(v[1..]);
      b
    else
      var b := [v[0]] + Escape(v[1..]);
      assert b[1..] == Escape(v[1..]);
      b
  }

  /** The quoted source text of a literal with value `v`. */
  function Quote(v: string): string {
    "\"" + Escape(v) + "\""
  }

  /** The kind of token a pattern yields. */
  predicate Yields(p: Pattern, t: Token) {
    match p
    case KeywordPattern(k) => t == Kw(k)
    case ConstantPattern => t.Constant?
    case EndPattern => t == End
    case PlusPattern => t == Plus
    case LiteralPattern => t.Literal?
    case IdPattern => t.Id?
  }

  /** Python's `re.compile(pattern).match(s)` for one table entry, with the
      token value and cursor advance the lexer derives from the match. */
  function MatchPattern(p: Pattern, s: string): (r: Option<Match>)
    ensures r.Some? ==> Yields(p, r.value.token) && WellFormed(r.value.token)
    ensures r.Some? ==> 1 <= r.value.matched <= |s| && r.value.advance <= r.value.matched
    ensures r.Some? ==> (s[0] == '"' <==> p == LiteralPattern)
    ensures r.Some? && p != LiteralPattern ==>
              r.value.advance == r.value.matched && s[..r.value.matched] == Text(r.value.token)
    ensures r.Some? && p == LiteralPattern ==>
              && ClosesAt(s, 1, r.value.matched - 1)
              && r.value.token.text == Unescape(s[1..r.value.matched - 1])
              && r.value.advance == |r.value.token.text|
  {
    match p
    case KeywordPattern(k) =>
      var w := KeywordText(k);
      if w <= s then Some(Match(Kw(k), |w|, |w|)) else None
    case ConstantPattern =>
      if ConstText(Space) <= s then Some(Match(Constant(Space), 5, 5))
      else if ConstText(Tab) <= s then Some(Match(Constant(Tab), 3, 3))
      else if ConstText(Newline) <= s then Some(Match(Constant(Newline), 7, 7))
      else None
    case EndPattern =>
      if |s| > 0 && s[0] == ';' then Some(Match(End, 1, 1)) else None
    case PlusPattern =>
      if |s| > 0 && s[0] == '+' then Some(Match(Plus, 1, 1)) else None
    case LiteralPattern =>
      if |s| > 0 && s[0] == '"' then
        match ScanLiteral(s, 1)
        case None => None
        case Some(n) =>
          ScanLiteralSound(s, 1);
          var v := Unescape(s[1..n - 1]);
          Some(Match(Literal(v), n, |v|))
      else None
    case IdPattern =>
      if |s| > 0 && IsAsciiLetter(s[0]) then
        var n := 1 + AlnumRun(s[1..]);
        assert forall i :: 1 <= i < n ==> s[..n][i] == s[1..][i - 1];
        Some(Match(Id(s[..n]), n, n))
      else None
  }

  /** The index of the first table entry, from `k` on, that matches `s`
      (`|TokenPatterns|` when none does): the first match wins, whatever its
      length. */
  function FirstMatch(s: string, k: nat): (i: nat)
    requires k <= |TokenPatterns|
    decreases |TokenPatterns| - k
    ensures k <= i <= |TokenPatterns|
    ensures forall j :: k <= j < i ==> MatchPattern(TokenPatterns[j], s).None?
    ensures i < |TokenPatterns| ==> MatchPattern(TokenPatterns[i], s).Some?
  {
    if k == |TokenPatterns| || MatchPattern(TokenPatterns[k], s).Some? then k
    else FirstMatch(s, k + 1)
  }

  /** The cursor sits on an empty literal `""`. */
  predicate EmptyLiteralAt(s: string) {
    |s| >= 2 && s[0] == '"' && s[1] == '"'
  }

  /** One iteration of the lexer loop on non-empty input: emit a token and move
      on, skip one character, or (when the match does not move the cursor)
      repeat forever. */
  datatype Step = Emit(token: Token, rest: string) | Skip(rest: string) | Stuck

  function LexStep(s: string): (r: Step)
    requires |s| > 0
    ensures r.Skip? ==> r.rest == s[1..]
    ensures r.Emit? ==> |r.rest| < |s| && IsSuffix(r.rest, s) && WellFormed(r.token)
  {
    var i := FirstMatch(s, 0);
    if i == |TokenPatterns| then Skip(s[1..])
    else
      var m := MatchPattern(TokenPatterns[i], s).value;
      if m.advance == 0 then
        Stuck
      else
        var rest := LStrip(s[m.advance..]);
        SuffixOfDrop(s, m.advance, rest);
        Emit(m.token, rest)
  }

  /** After a token other than a literal the cursor moves past exactly the
      token's text, and leading whitespace is then stripped. */
  lemma NormalAdvance(s: string)
    requires |s| > 0 && LexStep(s).Emit? && !LexStep(s).token.Literal?
    ensures Text(LexStep(s).token) <= s
    ensures LexStep(s).rest == LStrip(s[|Text(LexStep(s).token)|..])
  {
    var i := FirstMatch(s, 0);
    var m := MatchPattern(TokenPatterns[i], s).value;
    assert TokenPatterns[i] != LiteralPattern;
  }

  /** After a literal the cursor moves by the length of the unescaped value,
      not of the matched text, so the tail of the literal is lexed again. */
  lemma LiteralAdvance(s: string)
    requires |s| > 0 && LexStep(s).Emit? && LexStep(s).token.Literal?
    ensures s[0] == '"' && ScanLiteral(s, 1).Some?
    ensures var n := ScanLiteral(s, 1).value;
            && LexStep(s).token.text == Unescape(s[1..n - 1])
            && LexStep(s).rest == LStrip(s[|Unescape(s[1..n - 1])|..])
  {
    var i := FirstMatch(s, 0);
    EmitIsMatch(s);
    var m := MatchPattern(TokenPatterns[i], s).value;
    assert TokenPatterns[i] == LiteralPattern by {
      assert Yields(TokenPatterns[i], m.token);
    }
    LiteralMatch(s);
  }

  /** A step that emits reports the first match and moves past its advance. */
  lemma EmitIsMatch(s: string)
    requires |s| > 0 && LexStep(s).Emit?
    ensures var i := FirstMatch(s, 0);
      && i < |TokenPatterns| && MatchPattern(TokenPatterns[i], s).Some?
      && var m := MatchPattern(TokenPatterns[i], s).value;
         LexStep(s) == Emit(m.token, LStrip(s[m.advance..]))
  {
  }

  /** What the literal pattern's match is made of. */
  lemma LiteralMatch(s: string)
    requires MatchPattern(LiteralPattern, s).Some?
    ensures s[0] == '"' && ScanLiteral(s, 1).Some?
    ensures var n := ScanLiteral(s, 1).value;
            var v := Unescape(s[1..n - 1]);
            MatchPattern(LiteralPattern, s).value == Match(Literal(v), n, |v|)
  {
  }

  /** The loop makes no progress exactly when the cursor sits on `""`. */
  lemma StuckIff(s: string)
    requires |s| > 0
    ensures LexStep(s).Stuck? <==> EmptyLiteralAt(s)
  {
    var i := FirstMatch(s, 0);
    if LexStep(s).Stuck? {
      var m := MatchPattern(TokenPatterns[i], s).value;
      assert TokenPatterns[i] == LiteralPattern;
      assert s[1..m.matched - 1] == "";
    }
    if EmptyLiteralAt(s) {
      assert MatchPattern(TokenPatterns[12], s).Some?;
      assert TokenPatterns[i] == LiteralPattern;
    }
  }

  datatype LexResult = Tokens(tokens: seq<Token>) | Diverges

  /** `lex`: the token list, or Diverges when the loop never ends. */
  function Lex(s: string): (r: LexResult)
    decreases |s|
    ensures r.Tokens? ==> |r.tokens| <= |s|
    ensures r.Tokens? ==> forall i :: 0 <= i < |r.tokens| ==> WellFormed(r.tokens[i])
  {
    if |s| == 0 then Tokens([])
    else
      match LexStep(s)
      case Skip(rest) => Lex(rest)
      case Stuck => Diverges
      case Emit(t, rest) =>
        match Lex(rest)
        case Diverges => Diverges
        case Tokens(ts) => Tokens([t] + ts)
  }

  /** A character that can begin some token: a letter, `;`, `+` or `"`. */
  predicate IsTokenStart(c: char) {
    IsAsciiLetter(c) || c == ';' || c == '+' || c == '"'
  }

  lemma MatchNeedsTokenStart(p: Pattern, s: string)
    requires MatchPattern(p, s).Some?
    ensures IsTokenStart(s[0])
  {
    match p
    case KeywordPattern(k) =>
      assert s[0] == KeywordText(k)[0];
    case ConstantPattern =>
    case EndPattern =>
    case PlusPattern =>
    case LiteralPattern =>
    case IdPattern =>
  }

  /** A character that begins no token (whitespace, a digit, `!`, ...) is
      dropped without trace. */
  lemma UnmatchedVanishes(s: string)
    requires |s| > 0 && !IsTokenStart(s[0])
    ensures Lex(s) == Lex(s[1..])
  {
    forall j | 0 <= j < |TokenPatterns|
      ensures MatchPattern(TokenPatterns[j], s).None?
    {
      if MatchPattern(TokenPatterns[j], s).Some? {
        MatchNeedsTokenStart(TokenPatterns[j], s);
      }
    }
    NoMatchSkips(s);
  }

  /** When no entry matches, the loop drops one character. */
  lemma NoMatchSkips(s: string)
    requires |s| > 0
    requires forall j :: 0 <= j < |TokenPatterns| ==> MatchPattern(TokenPatterns[j], s).None?
    ensures Lex(s) == Lex(s[1..])
  {
    assert FirstMatch(s, 0) == |TokenPatterns|;
  }

  lemma {:induction false} ScanWithoutQuote(s: string, i: nat)
    requires i <= |s|
    requires forall k :: i <= k < |s| ==> s[k] != '"'
    ensures ScanLiteral(s, i).None?
    decreases |s| - i
  {
    if i < |s| {
      if s[i] == '\\' {
        if i + 1 < |s| && s[i + 1] != '\n' {
          ScanWithoutQuote(s, i + 2);
        }
      } else {
        ScanWithoutQuote(s, i + 1);
      }
    }
  }

  /** A quote that is never closed matches nothing and is dropped. */
  lemma UnterminatedQuoteVanishes(rest: string)
    requires forall k :: 0 <= k < |rest| ==> rest[k] != '"'
    ensures Lex("\"" + rest) == Lex(rest)
  {
    var s := "\"" + rest;
    assert s[0] == '"' && s[1..] == rest;
    assert ScanLiteral(s, 1).None? by {
      assert forall k :: 1 <= k < |s| ==> s[k] == rest[k - 1];
      ScanWithoutQuote(s, 1);
    }
    UnclosedQuoteSkips(s);
  }

  lemma UnclosedQuoteSkips(s: string)
    requires |s| > 0 && s[0] == '"' && ScanLiteral(s, 1).None?
    ensures Lex(s) == Lex(s[1..])
  {
    forall j | 0 <= j < |TokenPatterns|
      ensures MatchPattern(TokenPatterns[j], s).None?
    {
    }
    NoMatchSkips(s);
  }

  /** No empty literal `""` occurs anywhere in `s`. */
  predicate NoEmptyLiteral(s: string) {
    forall i :: 0 <= i < |s| - 1 ==> !(s[i] == '"' && s[i + 1] == '"')
  }

  /** Every step of the loop shortens the input except on an empty literal,
      so lexing text without `""` terminates. */
  lemma {:induction false} LexTerminates(s: string)
    requires NoEmptyLiteral(s)
    ensures Lex(s).Tokens?
    decreases |s|
  {
    if |s| > 0 {
      StuckIff(s);
      match LexStep(s)
      case Skip(rest) =>
        NoEmptyLiteralSuffix(s, rest);
        LexTerminates(rest);
      case Emit(t, rest) =>
        NoEmptyLiteralSuffix(s, rest);
        LexTerminates(rest);
    }
  }

  lemma NoEmptyLiteralSuffix(s: string, rest: string)
    requires NoEmptyLiteral(s) && IsSuffix(rest, s)
    ensures NoEmptyLiteral(rest)
  {
    assert forall i :: 0 <= i < |rest| ==> rest[i] == s[|s| - |rest| + i];
  }

  /** An empty literal at the cursor makes the loop repeat forever. */
  lemma EmptyLiteralDiverges(rest: string)
    ensures Lex("\"\"" + rest) == Diverges
  {
    StuckIff("\"\"" + rest);
  }

  /** A `""` starts at `p`. */
  predicate EmptyLiteralFrom(s: string, p: nat) {
    p + 1 < |s| && s[p] == '"' && s[p + 1] == '"'
  }

  /** A literal scanned from `i` unescapes to at most `p - i` characters when
      a `""` sits at `p >= i`: either the scan closes before `p`, or the first
      quote at `p` is the escaped one and the second closes the literal. */
  lemma {:induction false} ScanBeforeEmptyLiteral(s: string, i: nat, p: nat)
    requires i <= p && p + 1 < |s| && s[p] == '"' && s[p + 1] == '"'
    requires ScanLiteral(s, i).Some?
    ensures |Unescape(s[i..ScanLiteral(s, i).value - 1])| <= p - i
    decreases |s| - i
  {
    var n := ScanLiteral(s, i).value;
    var b := s[i..n - 1];
    if s[i] == '"' {
      assert b == "";
    } else if s[i] == '\\' {
      assert b[..2] == [s[i], s[i + 1]] && b[2..] == s[i + 2..n - 1];
      if i + 2 <= p {
        ScanBeforeEmptyLiteral(s, i + 2, p);
      } else {
        assert ScanLiteral(s, i + 2) == Some(i + 3);
        assert b[2..] == "";
      }
    } else {
      assert b[1..] == s[i + 1..n - 1];
      ScanBeforeEmptyLiteral(s, i + 1, p);
    }
  }

  /** Only a literal's value can hold a quote. */
  lemma TextHasNoQuote(t: Token)
    requires WellFormed(t) && !t.Literal?
    ensures forall i :: 0 <= i < |Text(t)| ==> Text(t)[i] != '"'
  {
  }

  /** A step that emits never moves the cursor past the first quote of a
      `""` further on. */
  lemma EmitStopsAtQuote(s: string, p: nat) returns (a: nat)
    requires 0 < p && p + 1 < |s| && s[p] == '"' && s[p + 1] == '"'
    requires LexStep(s).Emit?
    ensures a <= p && LexStep(s).rest == LStrip(s[a..])
  {
    if LexStep(s).token.Literal? {
      a := LiteralStopsAtQuote(s, p);
    } else {
      a := TextStopsAtQuote(s, p);
    }
  }

  lemma LiteralStopsAtQuote(s: string, p: nat) returns (a: nat)
    requires 0 < p && p + 1 < |s| && s[p] == '"' && s[p + 1] == '"'
    requires LexStep(s).Emit? && LexStep(s).token.Literal?
    ensures a <= p && LexStep(s).rest == LStrip(s[a..])
  {
    LiteralAdvance(s);
    a := LiteralAdvanceBound(s, p, LexStep(s).rest);
  }

  /** The literal's value is shorter than the text before a later `""`. */
  lemma LiteralAdvanceBound(s: string, p: nat, rest: string) returns (a: nat)
    requires 0 < p && p + 1 < |s| && s[p] == '"' && s[p + 1] == '"'
    requires ScanLiteral(s, 1).Some?
    requires var n := ScanLiteral(s, 1).value; rest == LStrip(s[|Unescape(s[1..n - 1])|..])
    ensures a <= p && rest == LStrip(s[a..])
  {
    ScanBeforeEmptyLiteral(s, 1, p);
    a := |Unescape(s[1..ScanLiteral(s, 1).value - 1])|;
  }

  lemma TextStopsAtQuote(s: string, p: nat) returns (a: nat)
    requires p < |s| && s[p] == '"'
    requires LexStep(s).Emit? && !LexStep(s).token.Literal?
    ensures a <= p && LexStep(s).rest == LStrip(s[a..])
  {
    var t := LexStep(s).token;
    NormalAdvance(s);
    TextHasNoQuote(t);
    PrefixBeforeQuote(Text(t), s, p);
    a := |Text(t)|;
  }

  /** A prefix without a quote ends at or before any quote of the whole. */
  lemma PrefixBeforeQuote(t: string, s: string, p: nat)
    requires t <= s && p < |s| && s[p] == '"'
    requires forall i :: 0 <= i < |t| ==> t[i] != '"'
    ensures |t| <= p
  {
  }

  /** A step that does not get stuck leaves a `""` further on in what is left. */
  lemma StepKeepsEmptyLiteral(s: string, p: nat) returns (q: nat)
    requires 0 < p && p + 1 < |s| && s[p] == '"' && s[p + 1] == '"'
    requires !LexStep(s).Stuck?
    ensures EmptyLiteralFrom(LexStep(s).rest, q)
  {
    if LexStep(s).Skip? {
      q := RestKeepsEmptyLiteral(s, p, 1, LexStep(s).rest);
    } else {
      var a := EmitStopsAtQuote(s, p);
      q := RestKeepsEmptyLiteral(s, p, a, LexStep(s).rest);
    }
  }

  /** Moving the cursor to `a <= p`, and then stripping whitespace or not,
      keeps a `""` found at `p`. */
  lemma RestKeepsEmptyLiteral(s: string, p: nat, a: nat, rest: string) returns (q: nat)
    requires a <= p && p + 1 < |s| && s[p] == '"' && s[p + 1] == '"'
    requires rest == s[a..] || rest == LStrip(s[a..])
    ensures EmptyLiteralFrom(rest, q)
  {
    var u := s[a..];
    assert u[p - a] == s[p] && u[p - a + 1] == s[p + 1];
    if rest == u {
      q := p - a;
    } else {
      assert !IsSpace(u[p - a]);
      q := LStripKeeps(u, p - a);
    }
  }

  /** What a step leaves diverging makes the whole input diverge. */
  lemma DivergesAfterStep(s: string)
    requires |s| > 0 && !LexStep(s).Stuck? && Lex(LexStep(s).rest) == Diverges
    ensures Lex(s) == Diverges
  {
  }

  /** A `""` anywhere in the input makes the loop repeat forever: nothing
      before it can carry the cursor past its first quote. */
  lemma {:induction false} EmptyLiteralAtDiverges(s: string, p: nat)
    requires EmptyLiteralFrom(s, p)
    ensures Lex(s) == Diverges
    decreases |s|
  {
    StuckIff(s);
    if !LexStep(s).Stuck? {
      var q := StepKeepsEmptyLiteral(s, p);
      EmptyLiteralAtDiverges(LexStep(s).rest, q);
      DivergesAfterStep(s);
    }
  }

  /** `lex` returns exactly when no `""` occurs anywhere in the input. */
  lemma LexDivergesIff(s: string)
    ensures Lex(s).Diverges? <==> !NoEmptyLiteral(s)
  {
    if NoEmptyLiteral(s) {
      LexTerminates(s);
    } else {
      var p: nat :| 0 <= p < |s| - 1 && s[p] == '"' && s[p + 1] == '"';
      assert EmptyLiteralFrom(s, p);
      EmptyLiteralAtDiverges(s, p);
    }
  }

  /** The position of a keyword's entry in the table. */
  function Rank(k: Keyword): (i: nat)
    ensures i < 9 && TokenPatterns[i] == KeywordPattern(k)
  {
    match k
    case KAppend => 0
    case KPrintWordCount => 1
    case KPrintWords => 2
    case KPrintLength => 3
    case KList => 4
    case KExit => 5
    case KPrint => 6
    case KSet => 7
    case KReverse => 8
  }

  lemma KeywordInitial(k: Keyword)
    ensures |KeywordText(k)| > 0 && 'a' <= KeywordText(k)[0] <= 'z'
    ensures KeywordText(k)[0] in {'a', 'p', 'l', 'e', 's', 'r'}
    ensures Rank(k) < Rank(KSet) ==> KeywordText(k)[0] != 's'
  {
    match k
    case KAppend =>
    case KPrintWordCount =>
    case KPrintWords =>
    case KPrintLength =>
    case KList =>
    case KExit =>
    case KPrint =>
    case KSet =>
    case KReverse =>
  }

  lemma ConstantInitial(c: ConstName)
    ensures |ConstText(c)| > 0 && 'A' <= ConstText(c)[0] <= 'Z'
    ensures ConstText(c)[0] in {'S', 'T', 'N'}
  {
    match c
    case Space =>
    case Tab =>
    case Newline =>
  }

  lemma KeywordEntries(j: nat)
    requires j < 9
    ensures TokenPatterns[j].KeywordPattern? && Rank(TokenPatterns[j].keyword) == j
  {
  }

  /** A keyword is recognised as a bare prefix, with no word boundary after
      it, unless a keyword earlier in the table is also a prefix of the
      input: `settle` starts with SET. */
  lemma KeywordWins(k: Keyword, rest: string)
    requires forall k' :: Rank(k') < Rank(k) ==> !(KeywordText(k') <= KeywordText(k) + rest)
    ensures LexStep(KeywordText(k) + rest) == Emit(Kw(k), LStrip(rest))
  {
    var w := KeywordText(k);
    var s := w + rest;
    assert w <= s;
    KeywordStepAt(k, s);
    assert s[|w|..] == rest;
  }

  /** The step at an input that starts with keyword `k` and with no keyword
      earlier in the table. */
  lemma KeywordStepAt(k: Keyword, s: string)
    requires KeywordText(k) <= s
    requires forall k' :: Rank(k') < Rank(k) ==> !(KeywordText(k') <= s)
    ensures LexStep(s) == Emit(Kw(k), LStrip(s[|KeywordText(k)|..]))
  {
    var w := KeywordText(k);
    EarlierKeywordsFail(k, s);
    FirstMatchIs(s, Rank(k));
    StepAt(s, Rank(k), Match(Kw(k), |w|, |w|));
  }

  lemma EarlierKeywordsFail(k: Keyword, s: string)
    requires forall k' :: Rank(k') < Rank(k) ==> !(KeywordText(k') <= s)
    ensures forall j :: 0 <= j < Rank(k) ==> MatchPattern(TokenPatterns[j], s).None?
  {
    forall j | 0 <= j < Rank(k)
      ensures MatchPattern(TokenPatterns[j], s).None?
    {
      KeywordEntries(j);
    }
  }

  /** `printwordcount` is one PRINTWORDCOUNT token, not PRINT followed by
      more: its entry precedes the entry for `print`. */
  lemma PrintWordCountWins(rest: string)
    ensures LexStep("printwordcount" + rest) == Emit(Kw(KPrintWordCount), LStrip(rest))
  {
    KeywordWins(KPrintWordCount, rest);
  }

  /** `set` followed by anything at all is a SET keyword. */
  lemma SetIsBarePrefix(rest: string)
    ensures LexStep("set" + rest) == Emit(Kw(KSet), LStrip(rest))
  {
    assert forall k' :: Rank(k') < Rank(KSet) ==> !(KeywordText(k') <= KeywordText(KSet) + rest) by {
      forall k' | Rank(k') < Rank(KSet)
        ensures !(KeywordText(k') <= KeywordText(KSet) + rest)
      {
        KeywordInitial(k');
        assert (KeywordText(KSet) + rest)[0] == 's';
      }
    }
    KeywordWins(KSet, rest);
    assert KeywordText(KSet) + rest == "set" + rest;
  }

  /** A constant name is recognised as a bare prefix too: `SPACES` starts
      with the constant SPACE. */
  lemma ConstantIsBarePrefix(c: ConstName, rest: string)
    ensures LexStep(ConstText(c) + rest) == Emit(Constant(c), LStrip(rest))
  {
    var s := ConstText(c) + rest;
    forall j | 0 <= j < 9
      ensures MatchPattern(TokenPatterns[j], s).None?
    {
      KeywordEntries(j);
      KeywordInitial(TokenPatterns[j].keyword);
      ConstantInitial(c);
    }
    var w := ConstText(c);
    ConstantMatch(c, rest);
    FirstMatchIs(s, 9);
    StepAt(s, 9, Match(Constant(c), |w|, |w|));
    assert s[|w|..] == rest;
  }

  /** No constant name is a prefix of another, so the alternation picks `c`. */
  lemma ConstantMatch(c: ConstName, rest: string)
    ensures MatchPattern(ConstantPattern, ConstText(c) + rest)
            == Some(Match(Constant(c), |ConstText(c)|, |ConstText(c)|))
  {
    var s := ConstText(c) + rest;
    assert s[..|ConstText(c)|] == ConstText(c);
    match c
    case Space =>
    case Tab => assert s[0] == 'T';
    case Newline => assert s[0] == 'N';
  }

  /** An identifier that starts with no keyword and no constant name, followed
      by a character that cannot extend it, is one ID token. */
  lemma IdentifierStep(x: string, rest: string)
    requires IsIdentifier(x)
    requires rest == [] || !IsAsciiAlnum(rest[0])
    requires forall k :: !(KeywordText(k) <= x + rest)
    requires forall c :: !(ConstText(c) <= x + rest)
    ensures LexStep(x + rest) == Emit(Id(x), LStrip(rest))
  {
    var s := x + rest;
    forall j | 0 <= j < 13
      ensures MatchPattern(TokenPatterns[j], s).None?
    {
      if j < 9 {
        KeywordEntries(j);
      } else {
        assert s[0] == x[0];
      }
    }
    IdMatch(x, rest);
    FirstMatchIs(s, 13);
    StepAt(s, 13, Match(Id(x), |x|, |x|));
    assert s[|x|..] == rest;
  }

  /** The ID pattern takes the whole identifier and stops where it ends. */
  lemma IdMatch(x: string, rest: string)
    requires IsIdentifier(x)
    requires rest == [] || !IsAsciiAlnum(rest[0])
    ensures MatchPattern(IdPattern, x + rest) == Some(Match(Id(x), |x|, |x|))
  {
    var s := x + rest;
    assert s[1..] == x[1..] + rest;
    AlnumRunOfRun(x[1..], rest);
    assert s[..|x|] == x;
  }

  /** The first entry that matches is `i` when it matches and no entry before
      it does. */
  lemma FirstMatchIs(s: string, i: nat)
    requires i < |TokenPatterns| && MatchPattern(TokenPatterns[i], s).Some?
    requires forall j :: 0 <= j < i ==> MatchPattern(TokenPatterns[j], s).None?
    ensures FirstMatch(s, 0) == i
  {
  }

  /** One step at the first matching entry, when the match moves the cursor. */
  lemma StepAt(s: string, i: nat, m: Match)
    requires |s| > 0 && i < |TokenPatterns| && FirstMatch(s, 0) == i
    requires MatchPattern(TokenPatterns[i], s) == Some(m) && m.advance > 0
    ensures LexStep(s) == Emit(m.token, LStrip(s[m.advance..]))
  {
  }

  lemma {:induction false} AlnumRunOfRun(a: string, rest: string)
    requires forall i :: 0 <= i < |a| ==> IsAsciiAlnum(a[i])
    requires rest == [] || !IsAsciiAlnum(rest[0])
    ensures AlnumRun(a + rest) == |a|
  {
    if |a| > 0 {
      assert (a + rest)[1..] == a[1..] + rest;
      AlnumRunOfRun(a[1..], rest);
    }
  }

  /** Lexing the quoted form of any string `v` yields a literal whose value is
      `v`: the quotes are removed and every `\c` becomes `c`. */
  lemma LiteralRoundTrip(v: string, rest: string)
    ensures MatchPattern(LiteralPattern, Quote(v) + rest)
            == Some(Match(Literal(v), |Quote(v)|, |v|))
  {
    var s := Quote(v) + rest;
    var e := Escape(v);
    assert s[1..|e| + 1] == e;
    ScanLiteralComplete(s, 1, |e| + 1);
  }

  /** After a literal the cursor moves by the length of its value only, so
      everything after the first `|v|` characters of the quoted text is lexed
      again; an empty literal does not move the cursor at all. */
  lemma LiteralAdvanceIsShort(v: string, rest: string)
    ensures v == "" ==> LexStep(Quote(v) + rest) == Stuck
    ensures v != "" ==>
              LexStep(Quote(v) + rest) == Emit(Literal(v), LStrip((Quote(v) + rest)[|v|..]))
  {
    var s := Quote(v) + rest;
    LiteralRoundTrip(v, rest);
    assert s[0] == '"';
    QuoteFirst(s);
    if v != "" {
      StepAt(s, 12, Match(Literal(v), |Quote(v)|, |v|));
    }
  }

  /** At a `"` only the literal entry can match. */
  lemma QuoteFirst(s: string)
    requires |s| > 0 && s[0] == '"' && MatchPattern(LiteralPattern, s).Some?
    ensures FirstMatch(s, 0) == 12
  {
    forall j | 0 <= j < 12
      ensures MatchPattern(TokenPatterns[j], s).None?
    {
    }
    FirstMatchIs(s, 12);
  }

  lemma LexEmit(s: string, t: Token, rest: string, ts: seq<Token>)
    requires |s| > 0 && LexStep(s) == Emit(t, rest) && Lex(rest) == Tokens(ts)
    ensures Lex(s) == Tokens([t] + ts)
  {
  }
}
