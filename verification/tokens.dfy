/** The tokens the lexer produces: a kind and, for the Python `(kind, value)`
    pair, the value text. */
module Tokens {
  import opened Strings

  /** The nine statement-introducing keywords, in lexer table order. */
  datatype Keyword =
    | KAppend | KPrintWordCount | KPrintWords | KPrintLength
    | KList | KExit | KPrint | KSet | KReverse

  /** The three named constants. */
  datatype ConstName = Space | Tab | Newline

  datatype Token =
    | Kw(keyword: Keyword)
    | Constant(constName: ConstName)
    | End
    | Plus
    | Literal(text: string)
    | Id(ident: string)

  /** The lower-case spelling a keyword is matched by. */
  function KeywordText(k: Keyword): string {
    match k
    case KAppend => "append"
    case KPrintWordCount => "printwordcount"
    case KPrintWords => "printwords"
    case KPrintLength => "printlength"
    case KList => "list"
    case KExit => "exit"
    case KPrint => "print"
    case KSet => "set"
    case KReverse => "reverse"
  }

  /** The spelling a constant is matched by. */
  function ConstText(c: ConstName): string {
    match c
    case Space => "SPACE"
    case Tab => "TAB"
    case Newline => "NEWLINE"
  }

  /** The kind tag of a token as the source spells it in error messages. */
  function KindName(t: Token): string {
    match t
    case Kw(k) =>
      (match k
       case KAppend => "APPEND"
       case KPrintWordCount => "PRINTWORDCOUNT"
       case KPrintWords => "PRINTWORDS"
       case KPrintLength => "PRINTLENGTH"
       case KList => "LIST"
       case KExit => "EXIT"
       case KPrint => "PRINT"
       case KSet => "SET"
       case KReverse => "REVERSE")
    case Constant(_) => "CONSTANT"
    case End => "END"
    case Plus => "PLUS"
    case Literal(_) => "LITERAL"
    case Id(_) => "ID"
  }

  /** The value half of the source's `(kind, value)` token pair. */
  function Text(t: Token): string {
    match t
    case Kw(k) => KeywordText(k)
    case Constant(c) => ConstText(c)
    case End => ";"
    case Plus => "+"
    case Literal(v) => v
    case Id(x) => x
  }

  /** `[A-Za-z][A-Za-z0-9]*` matches all of `s`. */
  predicate IsIdentifier(s: string) {
    && |s| > 0
    && IsAsciiLetter(s[0])
    && forall i :: 1 <= i < |s| ==> IsAsciiAlnum(s[i])
  }

  /** The value of a token fits its kind. */
  predicate WellFormed(t: Token) {
    t.Id? ==> IsIdentifier(t.ident)
  }
}
