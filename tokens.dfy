/** Token kinds produced by the lexer. The lexer itself is not part of this
    model: the parser reads a finite sequence of these kinds. */
module Tokens {

  datatype TokenKind =
    | IDENTIFIER(name: string)
    | INT(int_value: int)
    | STRING(str_value: string)
    | TRUE | FALSE
    | BANG | MINUS | PLUS | ASTERISK | SLASH
    | LT | GT | EQ | NotEq
    | ASSIGN | COMMA | SEMICOLON | COLON
    | LPAREN | RPAREN | LBRACE | RBRACE | LBRACKET | RBRACKET
    | LET | RETURN | IF | ELSE | FUNCTION
    | EOF | ILLEGAL

  /** Binary operators that parse_infix_expression folds into an INFIX node. */
  predicate IsBinaryOperator(k: TokenKind)
  {
    k.PLUS? || k.MINUS? || k.ASTERISK? || k.SLASH? || k.EQ? || k.NotEq? || k.LT? || k.GT?
  }

  /** Tokens that are a whole operand by themselves (identifiers and literals). */
  predicate IsAtom(k: TokenKind)
  {
    k.IDENTIFIER? || k.INT? || k.STRING? || k.TRUE? || k.FALSE?
  }
}

/** Binding powers of the Pratt parser, lowest first. */
module Precedences {
  import opened Tokens

  datatype Precedence = LOWEST | EQUALS | LESSGREATER | SUM | PRODUCT | PREFIX | CALL | INDEX

  function Rank(p: Precedence): (r: nat)
    ensures r <= 7
    ensures p == LOWEST <==> r == 0
  {
    match p
    case LOWEST => 0
    case EQUALS => 1
    case LESSGREATER => 2
    case SUM => 3
    case PRODUCT => 4
    case PREFIX => 5
    case CALL => 6
    case INDEX => 7
  }

  /** The derived `<` on the Rust enum: declaration order. */
  predicate Below(a: Precedence, b: Precedence)
  {
    Rank(a) < Rank(b)
  }

  /** get_token_precedence: the binding power of a token in infix position. */
  function PrecedenceOf(k: TokenKind): (p: Precedence)
    ensures p != LOWEST <==> IsBinaryOperator(k) || k == LPAREN || k == LBRACKET
    ensures IsBinaryOperator(k) ==> Below(p, PREFIX)
  {
    match k
    case EQ => EQUALS
    case NotEq => EQUALS
    case LT => LESSGREATER
    case GT => LESSGREATER
    case PLUS => SUM
    case MINUS => SUM
    case ASTERISK => PRODUCT
    case SLASH => PRODUCT
    case LPAREN => CALL
    case LBRACKET => INDEX
    case _ => LOWEST
  }
}
