# A verified model of a string-variable command language

The system is a small interpreter for a line-oriented command language. Each
line holds one or more semicolon-terminated statements that manipulate named
string variables:

- `set x <expr>;` and `append x <expr>;` bind and extend a variable;
- `reverse x;` reverses the order of its words;
- `list;`, `print`, `printlength`, `printwords` and `printwordcount` write to
  an output transcript;
- `exit;` ends the session.

An expression is a sequence of identifiers, the constants `SPACE`, `TAB` and
`NEWLINE`, and double-quoted literals, optionally separated by `+`.

Every line goes through three stages: the lexer, the recursive-descent parser
and the tree-walking evaluator. A line driver runs them line by line against
one shared symbol table. A small helper derives the output file's name from
the input file's name.

The model is pure Dafny functions over datatypes, one module per file:

| file | module | models |
|---|---|---|
| `wrappers.dfy` | `Wrappers` | `Option` and `Result` |
| `strings.dfy` | `Strings` | whitespace stripping, `join`, `reversed`, character classes, decimal rendering |
| `tokens.dfy` | `Tokens` | the token kinds and their texts |
| `lexer.dfy` | `Lexer` | `token_patterns` and `lex` |
| `lexer_examples.dfy` | `LexerExamples` | consequences of the pattern order for particular inputs |
| `parser.dfy` | `Parser` | `parse_program`, `parse_statement`, `parse_expression`, `consume_end_token`, `parse_value`, and a renderer used for round trips |
| `store.dfy` | `SymbolTable` | the symbol table, as an insertion-ordered association list |
| `words.dfy` | `Words` | `get_words`, as a deterministic scanner |
| `interpreter.dfy` | `Interpreter` | `interpret`, `evaluate_expression`, `evaluate_value` |
| `driver.dfy` | `Driver` | `process_commands`, over lines already split |
| `output_name.dfy` | `OutputName` | `get_output_filename` |

How the model represents the program:

- **Tokens.** A token is a datatype with one constructor per kind. A
  `CONSTANT` carries an enumeration of `SPACE`, `TAB` and `NEWLINE`.
- **Regular expressions.** Each one is written as a hand-made scanner.
  Lemmas then tie each scanner to a declarative description of what the
  regular expression accepts.
- **Lexer divergence.** `lex` never finishes when an empty literal `""`
  occurs anywhere in its input. The model's `Lex` returns `Diverges` in that
  case, and `Tokens(ts)` otherwise.
- **Exceptions.** A `ValueError` from the parser becomes `Failure(message)`,
  with the source's message text.
- **Run outcomes.** The evaluator's result records three things:
  - the table;
  - the text written to the output file;
  - whether the run completed, aborted on a runtime error, or stopped at
    `exit`.
- **Output.** All output is the transcript, as a string of whole lines.

## Behaviour of the source worth knowing

The model follows the code in every case below.

- **First match wins** (lexer.py:50-53). The lexer takes the first pattern in
  table order that matches, not the longest one. So `settle` lexes as `SET`
  followed by `ID("tle")`, and `SPACES` lexes as `CONSTANT(SPACE)` followed
  by `ID("S")`.
- **Literal advance** (lexer.py:55-59). After a string literal the cursor
  moves by the length of the *unescaped body*, not by the matched text. The
  tail of the literal is therefore lexed again: `set X "hi";` gives an extra
  `ID("i")` before the `END`.
- **Empty literal** (lexer.py:55-59). An empty literal `""` advances the
  cursor by zero, so `lex` loops forever. This happens exactly when `""`
  occurs somewhere in the input, since no earlier step can carry the cursor
  past it.
- **`+` is checked** (parser_1.py:15-18). At most one `+` is dropped after
  each value. A leading `+`, or two `+` in a row, reaches `parse_value` and
  fails with `Invalid value: PLUS`. A trailing `+` before `;` is accepted,
  and so are values written side by side with no `+` between them.
- **Error recovery** (interpreter.py:83-85). The comment there says the loop
  should move on to the next statement. It looks for a statement tagged
  `END` instead, and no statement ever has that tag. So after a runtime
  error every remaining statement of the line is skipped, not just the
  failing one.
- **Error messages** (parser_1.py:30, parser_1.py:77). The parser's messages
  carry the token kind, as in `Invalid statement start: PLUS`. A print
  keyword with nothing after it fails with `Unhandled statement type: <kind>`.

## Model

| member | source | states |
|---|---|---|
| Strings.LStrip | lexer.py:60 | the result is a suffix of the input, everything removed is whitespace, and the result does not start with whitespace |
| Strings.RStrip | main.py:30 | the result is a prefix of the input, everything removed is whitespace, and the result does not end with whitespace |
| Strings.Strip | main.py:30 | the result is a slice of the input with only whitespace before and after it, it has no whitespace at either end, and it is empty exactly when the line is all whitespace |
| Strings.LStripKeeps | lexer.py:60 | `lstrip` keeps the first character that is not whitespace and the one after it, in order |
| Strings.AlnumRun | lexer.py:34 | the length of the longest run of ASCII letters and digits at the front |
| Strings.DigitRun | main.py:57 | the length of the longest run of ASCII digits at the front |
| Strings.Reverse | interpreter.py:74 | element i of the result is element n-1-i of the input |
| Strings.Join | interpreter.py:56 | `sep.join(ws)`, the joins at lines 56, 75 and 100; characterised by `Interpreter.JoinLines` (a newline join plus a final newline is one element per line) and `Words.GetWordsOfJoin` (words joined by spaces scan back) |
| Strings.ReverseReverse | interpreter.py:74 | reversing twice gives back the list |
| Strings.NatToString | interpreter.py:49 | the decimal text of a count is non-empty, is all digits, and has no leading zero |
| Strings.DecimalRoundTrip | interpreter.py:63 | the decimal text of n reads back as n |
| Lexer.ScanLiteral | lexer.py:33 | a successful scan ends after the opening position and within the input |
| Lexer.ScanLiteralSound | lexer.py:33 | a scan that succeeds stops at a closing quote, and everything before it is a valid literal body (escape pairs and non-quote, non-backslash characters) |
| Lexer.ScanLiteralComplete | lexer.py:33 | when a valid body ends at a quote, the scanner finds exactly that quote, so the first unescaped quote closes the literal |
| Lexer.ScanWithoutQuote | lexer.py:33 | with no quote left in the input, the literal pattern cannot match |
| Lexer.Unescape | lexer.py:57 | unescaping never lengthens the body, and gives the empty string only for an empty body |
| Lexer.Escape | lexer.py:55-57 | escaping any value gives a valid literal body that unescapes back to the value |
| Lexer.MatchPattern | lexer.py:20-35 | a match gives a well-formed token of the pattern's kind; at least one character is matched; the advance is at most the match; only the literal pattern matches at a quote |
| Lexer.FirstMatch | lexer.py:50-53 | the index of the first pattern in table order that matches; every earlier pattern fails |
| Lexer.LexStep | lexer.py:48-63 | a skip drops exactly one character; an emit gives a well-formed token and a strictly shorter remainder that is a suffix of the input |
| Lexer.NormalAdvance | lexer.py:59-60 | after a non-literal token the input begins with the token's text, and the cursor moves past exactly that text and then any whitespace |
| Lexer.LiteralAdvance | lexer.py:55-60 | a literal token's text is the unescaped body between the quotes, and the cursor moves by the length of that value, not of the match |
| Lexer.EmitIsMatch | lexer.py:50-61 | an emitted token is the first matching pattern's token, and the cursor moves past that match's advance |
| Lexer.LiteralMatch | lexer.py:55-57 | the literal pattern's match covers the quotes and the scanned body, and its token holds the unescaped body |
| Lexer.StuckIff | lexer.py:56-59 | a step makes no progress exactly when the cursor is at an empty literal |
| Lexer.Lex | lexer.py:37-64 | a terminating lex gives at most one token per input character, and every token fits its kind |
| Lexer.MatchNeedsTokenStart | lexer.py:20-35 | no pattern matches unless the first character can begin a token |
| Lexer.UnmatchedVanishes | lexer.py:62-63 | a character that cannot begin a token (whitespace, a digit, `!`) is dropped and contributes nothing |
| Lexer.NoMatchSkips | lexer.py:62-63 | when no pattern matches, lexing goes on from the next character |
| Lexer.UnterminatedQuoteVanishes | lexer.py:48-63 | a quote with no other quote after it is dropped |
| Lexer.UnclosedQuoteSkips | lexer.py:33 | a quote whose literal never closes is skipped like any unmatched character |
| Lexer.LexTerminates | lexer.py:48-60 | when no `""` occurs anywhere in the input, lexing terminates |
| Lexer.NoEmptyLiteralSuffix | lexer.py:59-60 | having no empty literal carries over to every suffix |
| Lexer.EmptyLiteralDiverges | lexer.py:55-59 | an input starting with `""` never finishes lexing |
| Lexer.ScanBeforeEmptyLiteral | lexer.py:55-59 | a literal scanned up to a later `""` unescapes to no more characters than lie before that `""` |
| Lexer.TextHasNoQuote | lexer.py:21-34 | no token other than a literal has a `"` in its text |
| Lexer.EmitStopsAtQuote | lexer.py:54-60 | a step that emits a token never moves the cursor past the first quote of a later `""` |
| Lexer.StepKeepsEmptyLiteral | lexer.py:48-62 | a step that does not get stuck leaves a `""` in what remains |
| Lexer.EmptyLiteralAtDiverges | lexer.py:48-62 | a `""` anywhere in the input makes lexing run forever |
| Lexer.LexDivergesIff | lexer.py:48-62 | lexing runs forever if and only if `""` occurs somewhere in the input |
| Lexer.Rank | lexer.py:21-29 | every keyword has its own entry among the first nine of the table |
| Lexer.KeywordInitial | lexer.py:21-29 | every keyword starts with a lower-case letter from a known set, and only `set` among the first eight starts with `s` |
| Lexer.ConstantInitial | lexer.py:30 | every constant name starts with `S`, `T` or `N` |
| Lexer.KeywordEntries | lexer.py:21-29 | the first nine entries are the keyword patterns, in rank order |
| Lexer.KeywordWins | lexer.py:20-35 | a keyword at the cursor is emitted, without any word boundary, unless an earlier keyword in the table also matches |
| Lexer.KeywordStepAt | lexer.py:50-60 | the same for any input starting with the keyword: the keyword token, then the rest with leading whitespace removed |
| Lexer.EarlierKeywordsFail | lexer.py:50-53 | if no earlier keyword is a prefix, every earlier pattern fails |
| Lexer.PrintWordCountWins | lexer.py:22-27 | `printwordcount` gives one PRINTWORDCOUNT token, not PRINT followed by other tokens |
| Lexer.SetIsBarePrefix | lexer.py:28 | `set` followed by anything gives SET, as in `settle` |
| Lexer.ConstantIsBarePrefix | lexer.py:30 | a constant name followed by anything gives the CONSTANT, as in `SPACES` |
| Lexer.ConstantMatch | lexer.py:30 | the constant pattern matches exactly the constant's name |
| Lexer.IdentifierStep | lexer.py:34 | a maximal identifier that no keyword or constant begins is emitted whole as an ID |
| Lexer.IdMatch | lexer.py:34 | the identifier pattern takes the whole maximal run of letters and digits |
| Lexer.FirstMatchIs | lexer.py:50-53 | a matching pattern with only failing patterns before it is the one chosen |
| Lexer.StepAt | lexer.py:50-60 | the chosen pattern's token is emitted, and the cursor moves past its advance and then any whitespace |
| Lexer.AlnumRunOfRun | lexer.py:34 | the alphanumeric run of an alphanumeric word followed by a non-alphanumeric character is the word |
| Lexer.LiteralRoundTrip | lexer.py:33 | the literal pattern on a quoted, escaped value gives the value back, with an advance equal to the value's length |
| Lexer.LiteralAdvanceIsShort | lexer.py:55-60 | after `"v"` the cursor moves by the length of v, so the literal's tail is lexed again; for an empty v the step is stuck |
| Lexer.QuoteFirst | lexer.py:30-33 | at a quote, the literal entry is the first that matches |
| Lexer.LexEmit | lexer.py:48-61 | an emitted token comes first, followed by the tokens of the remainder |
| LexerExamples.NoKeywordAt | lexer.py:21-29 | no keyword matches where the first character is not one of their initials |
| LexerExamples.NoConstantAt | lexer.py:30 | no constant matches where the first character is not `S`, `T` or `N` |
| LexerExamples.LoneIdentifier | lexer.py:34 | an identifier that no keyword or constant begins lexes as that one ID |
| LexerExamples.UpperCaseSet | lexer.py:28-34 | `SET` in upper case is an identifier, not a keyword |
| Parser.ParseValue | parser_1.py:86-93 | it succeeds exactly on an ID, CONSTANT or LITERAL token, giving it back unchanged and consuming it; otherwise it fails with `Incomplete value` or `Invalid value: <kind>` |
| Parser.DropPlus | parser_1.py:17-18 | dropping an optional `+` never lengthens the tokens |
| Parser.ParseExpression | parser_1.py:13-21 | success never lengthens the tokens and consumes at least one when there is any; every failure is `Invalid value: <kind>` |
| Parser.ConsumeEnd | parser_1.py:79-84 | it succeeds exactly when the next token is END, consuming only it; otherwise it fails with `Missing statement terminator ';'` |
| Parser.ParseStatement | parser_1.py:23-77 | success consumes at least one token; no tokens gives `Incomplete statement`; a non-keyword start gives `Invalid statement start: <kind>`; SET, APPEND and REVERSE without an ID give `Expected identifier after '<kw>'`; a bare print keyword gives `Unhandled statement type: <kind>` |
| Parser.Terminators | parser_1.py:45-74 | LIST, EXIT and `reverse <id>` parse exactly when END follows immediately, and otherwise fail with the terminator message |
| Parser.ParseProgram | parser_1.py:6-11 | no tokens give no statements; a program has at most one statement per token; the first statement's error is the program's error |
| Parser.ExpressionCons | parser_1.py:15-18 | a value followed by tokens parses as that value followed by the expression that remains once one `+` is dropped |
| Parser.ExpressionEnd | parser_1.py:19-20 | END ends an expression, and is consumed |
| Parser.SingleValueExpression | parser_1.py:13-21 | one value then END parses as that value, consuming the END |
| Parser.ExpressionRoundTrip | parser_1.py:13-21 | any expression written with `+` between its values and a closing END parses back to itself, leaving the tokens that follow |
| Parser.UnterminatedExpression | parser_1.py:15-21 | without an END the expression runs to the end of the tokens, and that is no error |
| Parser.SetRoundTrip | parser_1.py:32-37 | a written SET statement parses back to itself |
| Parser.AppendRoundTrip | parser_1.py:38-43 | a written APPEND statement parses back to itself |
| Parser.PrintRoundTrip | parser_1.py:52-66 | each written print-family statement parses back to itself |
| Parser.PrintStep | parser_1.py:52-66 | a print keyword followed by a parsable expression gives that print statement |
| Parser.StatementRoundTrip | parser_1.py:23-77 | every written statement parses back to itself, leaving the tokens that follow |
| Parser.ProgramRoundTrip | parser_1.py:6-11 | every written program parses back to itself, with the statements in order |
| Parser.LeadingPlus | parser_1.py:15-18 | a leading `+` fails with `Invalid value: PLUS` |
| Parser.DoublePlus | parser_1.py:15-18 | two `+` in a row fail with `Invalid value: PLUS` |
| Parser.TrailingPlus | parser_1.py:15-20 | a `+` just before END is accepted |
| Parser.Juxtaposed | parser_1.py:15-18 | two values with no `+` between them form one expression |
| SymbolTable.Keys | interpreter.py:32 | the keys in table order |
| SymbolTable.Get | interpreter.py:119-120 | a lookup fails exactly when the key is absent, and otherwise returns a value bound to the key |
| SymbolTable.Put | interpreter.py:69 | a binding keeps the key order when the key is present, appends the key when it is absent, and keeps keys distinct |
| SymbolTable.PutGet | interpreter.py:69 | a key reads back the value just bound |
| SymbolTable.PutOther | interpreter.py:69 | binding one key leaves every other key's value unchanged |
| SymbolTable.PutPut | interpreter.py:69 | a second binding of a key replaces the first |
| SymbolTable.PutNew | interpreter.py:29 | a new key is added at the end, so insertion order is kept |
| SymbolTable.PutSame | interpreter.py:69 | binding a key to its own value leaves the table as it was |
| Words.AlnumEnd | interpreter.py:145 | the end of the maximal run of letters and digits from a position |
| Words.ChainEnd | interpreter.py:145 | a chain that takes anything starts with a connector followed by a letter or digit |
| Words.ChainEndSpan | interpreter.py:145 | the scanned chain of connector-separated runs has the pattern's shape and cannot be extended |
| Words.ChainEndUnique | interpreter.py:145 | any chain of that shape that cannot be extended is the one the scanner finds |
| Words.WordEnd | interpreter.py:145 | a word starts at a position exactly when a letter or digit is there |
| Words.WordEndSpan | interpreter.py:145 | the scanned word matches the pattern in full and cannot be extended |
| Words.WordEndUnique | interpreter.py:145 | the longest match of the pattern from a position is the scanned word |
| Words.AllWordsIndex | interpreter.py:145 | a list is all words exactly when each element is a word |
| Words.SpanIsWord | interpreter.py:145 | a matched span is a word on its own |
| Words.WordsFrom | interpreter.py:145 | `re.findall` from a position: the match at the leftmost position that has one, then the search resumes after it; characterised by `Words.WordEndUnique`, `Words.WordsFromAreWords` and `Words.WordsFromJoin` |
| Words.GetWords | interpreter.py:135-145 | `get_words`: the scan from the start; characterised by `Words.GetWordsAreWords` (only pattern words are returned) and `Words.GetWordsOfJoin` (a space-joined word list gives back that list) |
| Words.WordsFromAreWords | interpreter.py:145 | everything the scan finds from a position is a word |
| Words.GetWordsAreWords | interpreter.py:145 | every word found is non-empty, begins and ends with a letter or digit, and joins runs with single `-` or `'` |
| Words.WordAt | interpreter.py:145 | a word that cannot be extended is scanned exactly |
| Words.WordsFromJoin | interpreter.py:145 | scanning words joined by single spaces gives back those words |
| Words.LastWord | interpreter.py:145 | a final word is found alone |
| Words.WordThenSpace | interpreter.py:145 | a word followed by a space is found, and the scan resumes after the space |
| Words.GetWordsOfJoin | interpreter.py:145 | the words of a space-joined list of words are that list |
| Words.GetWordsOfWord | interpreter.py:145 | a word on its own is found as itself |
| Words.GetWordsNormalise | interpreter.py:145 | rejoining the words with single spaces and scanning again gives the same words |
| Words.NoWordsWithoutAlnum | interpreter.py:145 | text with no letter or digit has no words |
| Words.WordsHaveNoNewline | interpreter.py:145 | no word contains a newline |
| Interpreter.ConstValue | interpreter.py:123-129 | each constant stands for one whitespace character |
| Interpreter.EvalValue | interpreter.py:117-131 | an ID gives its bound value, or `""` when it is unbound; a constant gives its character; a literal gives its text |
| Interpreter.EvalExpr | interpreter.py:98-100 | the empty expression gives `""`, and a single value gives that value |
| Interpreter.EvalExprConcat | interpreter.py:98-100 | evaluating a concatenation of expressions concatenates their values, in order |
| Interpreter.EvalExprClosed | interpreter.py:117-131 | an expression with no identifiers has the same value under every table |
| Interpreter.Entry | interpreter.py:33 | the `name: value` line LIST writes for one binding; characterised by `Interpreter.EntriesSnoc` and `Interpreter.ListAfterNewBinding` |
| Interpreter.Entries | interpreter.py:32-33 | one such line per binding, in table order; characterised by `Interpreter.EntriesSnoc` (a last binding is listed last) and `Interpreter.EntriesEndsLine` (empty exactly for an empty table, otherwise ending in a newline) |
| Interpreter.ListText | interpreter.py:30-33 | the count header then the entry lines; characterised by `Interpreter.ListTextEndsLine` and `Interpreter.ListAfterNewBinding` |
| Interpreter.EntriesSnoc | interpreter.py:32-33 | a binding added at the end of the table is listed last |
| Interpreter.ListTextEndsLine | interpreter.py:30-35 | a LIST writes whole lines |
| Interpreter.EntriesEndsLine | interpreter.py:32-33 | the listing is empty exactly for an empty table, and otherwise ends with a newline |
| Interpreter.Exec | interpreter.py:23-77 | only EXIT stops; only REVERSE of an unbound identifier raises, with `Undefined variable: <id>`; output statements keep the table and write whole lines; the others write nothing; distinct keys stay distinct |
| Interpreter.ExecKeys | interpreter.py:23-77 | SET, APPEND and REVERSE add their identifier when it is new and no other key |
| Interpreter.Interpret | interpreter.py:7-85 | distinct keys stay distinct; a run that exits contains an EXIT; a run that aborts contains a REVERSE |
| Interpreter.SetStores | interpreter.py:66-69 | SET binds the identifier to the expression's value and leaves every other binding unchanged |
| Interpreter.AppendIsSetOfConcat | interpreter.py:23-29 | APPEND is SET of the identifier followed by the expression |
| Interpreter.AppendUnboundIsSet | interpreter.py:28-29 | on an unbound identifier APPEND acts exactly like SET |
| Interpreter.ReversedText | interpreter.py:73-75 | the words of a value in reverse order joined by single spaces; characterised by `Interpreter.ReverseReversesWords` (its words are the old words reversed) and `Interpreter.ReverseTwice` |
| Interpreter.ReverseReversesWords | interpreter.py:70-75 | REVERSE binds the identifier to a text whose words are the old words in reverse order |
| Interpreter.ExecReverse | interpreter.py:70-77 | REVERSE of a bound identifier continues, writes nothing, and rebinds it to its reversed words |
| Interpreter.ReverseTwice | interpreter.py:70-75 | two REVERSEs of one identifier give its words in their original order, joined by single spaces, and write nothing |
| Interpreter.InterpretTwo | interpreter.py:19-78 | two statements that both continue run one after the other, and their output is concatenated |
| Interpreter.PrintLengthReadsBack | interpreter.py:46-51 | PRINTLENGTH writes `Length is: `, then digits that read back as the value's length, then a newline |
| Interpreter.WordCountReadsBack | interpreter.py:59-65 | PRINTWORDCOUNT writes `Wordcount is: `, then digits that read back as the number of words, then a newline |
| Interpreter.JoinLines | interpreter.py:56-58 | joining with newlines and ending the last line puts each element on a line of its own |
| Interpreter.PrintWordsLines | interpreter.py:52-58 | PRINTWORDS writes `Words are:`, then each word on its own line (or one empty line when there are no words); no word holds a newline |
| Interpreter.ListAfterNewBinding | interpreter.py:30-35 | after a new binding, LIST counts one more entry and shows the new binding last |
| Interpreter.InterpretConcat | interpreter.py:19-85 | running two statement lists in a row is running their concatenation, and a halt in the first skips the second |
| Interpreter.HaltDiscardsRest | interpreter.py:36-85 | after an error or an EXIT nothing further of the line runs |
| Interpreter.ErrorEndsLine | interpreter.py:79-85 | a raising statement writes `Error: <msg>`, leaves the table as it was and skips every later statement of the line |
| Interpreter.ExitEndsLine | interpreter.py:36-40 | EXIT writes `Exiting the interpreter.`, keeps the effects of the statements before it, and runs nothing after it |
| Driver.OneLine | main.py:34 | a message written as one line is the message followed by one newline |
| Driver.SemicolonError | main.py:32-34 | the complaint about a line without its semicolon is one whole line that starts with `Error: ` and quotes the stripped line at its end |
| Driver.LineError | main.py:43-45 | a parse error is reported as one whole line: `Error in line '<line>': ` followed by exactly the error message |
| Driver.ProcessLine | main.py:29-45 | a non-empty line without a final `;` writes the semicolon error and changes nothing; a blank line does nothing; the line hangs exactly when the lexer diverges; it quits only on a terminated line that lexes; distinct keys stay distinct |
| Driver.Loop | main.py:29-41 | no lines end the session at end of input; any other ending needs a line |
| Driver.ProcessCommands | main.py:19-45 | no lines do nothing; only a line ends the session early; distinct keys stay distinct |
| Driver.LoopConcat | main.py:29-41 | processing two batches of lines is processing the first and then, unless it ended, the second with the resulting table |
| Driver.LoopKeepsDistinct | main.py:29-41 | a step that keeps keys distinct keeps them distinct over the whole loop |
| Driver.LoopWritesLines | main.py:29-45 | a step that writes whole lines makes the loop write whole lines |
| Driver.LoopSkips | main.py:29-37 | lines that leave the table alone and write nothing can be dropped |
| Driver.ProcessConcat | main.py:28-41 | the table carries over from one line to the next, so mutations persist into later lines |
| Driver.LaterLinesIgnored | main.py:40-41 | once EXIT ends the session, later lines are never processed |
| Driver.BlankLinesAreSkipped | main.py:36-37 | blank lines change nothing and write nothing |
| Driver.SessionWritesLines | main.py:32-45 | everything a session writes is whole lines |
| Driver.LineWritesLines | main.py:32-45 | everything one line writes is whole lines |
| Driver.InterpretWritesLines | interpreter.py:30-82 | everything the evaluator writes is whole lines |
| Driver.ParseErrorKeepsTable | main.py:38-45 | a parse error writes `Error in line '<line>': <msg>`, and no statement of the line runs |
| Driver.RunsRenderedProgram | main.py:36-41 | a line whose tokens are a written program runs that program; it quits exactly when the program exits |
| OutputName.FindMatch | main.py:57 | the leftmost position where digits followed by `.txt` begin, reached without crossing a newline; none when there is no such position |
| OutputName.GetOutputFilename | main.py:57-59 | when `q` is the first position, reached from the start without crossing a newline, where a digit run is followed by `.txt`, the result is `output` + that digit run + `.txt` |
| OutputName.NoMatchDefault | main.py:57-61 | when no digit run followed by `.txt` can be reached from the start without crossing a newline, the result is `output.txt` |
| OutputName.NoNumberedSuffixDefault | main.py:57-61 | a name in which no digit is directly followed by `.`, such as `a1b.txt`, gives `output.txt` |
| OutputName.ExtendLeft | main.py:57 | a match preceded by a digit extends one position to the left |
| OutputName.GroupIsDigitRun | main.py:57 | the captured digits are the whole digit run just before the first `.txt` that follows a digit |
| OutputName.DigitsAt | main.py:57-59 | the first digit run followed by `.txt` names the output, whatever comes after |
| OutputName.NumberedName | main.py:57-59 | `<stem>N.txt<anything>`, with no digit in the stem, gives `outputN.txt` |
| OutputName.FindFirst | main.py:57 | the scan finds the first position that matches |
| OutputName.NoDigitDefault | main.py:60-61 | a name with no digit gives `output.txt` |

## Left out

- The interactive front end and all file I/O are not modelled: `main`, `read_commands_from_file`, the banner, `input()`, the bare `exit` check and the dispatch on `set <file>.txt`. They are glue around the core.
- The `print` copies to the console are not modelled, including `output.strip()` for LIST. Only the transcript is modelled, as the string written to the output file.
- `splitlines` is not modelled. `ProcessCommands` takes the lines already split.
- Python's `strip` and `lstrip` are modelled by the fixed list of characters `str.isspace` accepts, written out in `Strings.IsSpace`. `\d` is modelled as ASCII digits only, not Unicode digits.
- The regular expression engine is not modelled. Each pattern is a scanner, tied by lemmas to a description of what the pattern matches.
- The lexer's infinite loop on an empty literal is the result `Diverges`, and the driver then ends the session as `Hung`. Nothing after a diverging line is processed.
- Unreachable branches are not modelled: the ID and invalid-expression branches of `evaluate_expression`, and a CONSTANT with any other name. The types rule these out. `parse_value`'s `Incomplete value` is modelled, but it cannot arise inside an expression, because the expression loop only calls it when a token is present.
- Exceptions raised by `write` are not modelled.
- Driver.ProcessCommands: it returns the session's end, not Python's `'EXIT'` or `None`. `ExitCommand` stands for `'EXIT'` and `EndOfInput` for `None`. `Hung` stands for a call that never returns, because a line made `lex` loop forever.
