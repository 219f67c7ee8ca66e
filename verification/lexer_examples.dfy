/** Lexing identifiers: keywords and constants win over identifiers only as
    prefixes, and only lower-case keywords exist. */
module LexerExamples {
  import opened Strings
  import opened Tokens
  import opened Lexer

  lemma NoKeywordAt(s: string)
    requires |s| > 0 && s[0] !in {'a', 'p', 'l', 'e', 's', 'r'}
    ensures forall k :: !(KeywordText(k) <= s)
  {
    forall k ensures !(KeywordText(k) <= s) {
      KeywordInitial(k);
    }
  }

  lemma NoConstantAt(s: string)
    requires |s| > 0 && s[0] !in {'S', 'T', 'N'}
    ensures forall c :: !(ConstText(c) <= s)
  {
    forall c ensures !(ConstText(c) <= s) {
      ConstantInitial(c);
    }
  }

  /** A lone identifier with no keyword or constant at its front. */
  lemma LoneIdentifier(x: string)
    requires IsIdentifier(x)
    requires forall k :: !(KeywordText(k) <= x)
    requires forall c :: !(ConstText(c) <= x)
    ensures Lex(x) == Tokens([Id(x)])
  {
    assert x + "" == x;
    IdentifierStep(x, "");
    LexEmit(x, Id(x), "", []);
  }

  /** Keywords are lower-case only: `SET` is an identifier. */
  lemma UpperCaseSet()
    ensures Lex("SET") == Tokens([Id("SET")])
  {
    NoKeywordAt("SET");
    forall c ensures !(ConstText(c) <= "SET") {
      match c
      case Space =>
      case Tab =>
      case Newline =>
    }
    LoneIdentifier("SET");
  }
}
