/** The token record and the token kinds of the jbash.parser package. */
module Tokens {

  /** The kinds jbash.parser.TokenType declares, in declaration order, followed
      by Great, which the lexer produces although the enumeration does not
      declare it; most of the operator kinds (AndIf .. Clobber) are never
      produced by the lexers. */
  datatype TokenType =
    | Word | StringLit | StringFormat | ParenExpr | CurlyExpr | BrackExpr | Dollar
    | AndIf | OrIf | DSemi | DLess | DGreat | LessAnd | GreatAnd | LessGreat | DLessDash | Clobber
    | If | Then | Else | Elif | Fi | Do | Done | Case | Esac | While | Until | For
    | EOF | EOL | Whitespace | Great

  /** An immutable token: its kind, the cursor value recorded for it, and its text. */
  datatype Token = Token(kind: TokenType, position: int, lexeme: string)

  /** The kinds that end a token sequence. */
  predicate IsTerminal(kind: TokenType)
  {
    kind == EOF || kind == EOL
  }
}
