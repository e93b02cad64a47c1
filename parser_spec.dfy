/** The parser of parser/lib.rs as pure functions over a token sequence.
    A position `pos` is the index of the current token; the peek token is the
    one after it. Reads past the end of the sequence yield EOF. Every function
    returns the outcome together with the position the parser is left at. */
module ParserSpec {
  import opened Results
  import opened Tokens
  import opened Precedences
  import opened Ast

  datatype ParseError =
    | ExpectedToken(expected: TokenKind, got: TokenKind)   // expect_peek
    | NoPrefixFunction(token: TokenKind)                   // parse_prefix_expression
    | NotAnIdentifier                                      // parse_let_statement
    | ParameterNotIdentifier(got: TokenKind)               // parse_fn_parameters

  type PResult<T> = Outcome<T, ParseError>

  /** A parse outcome and the position of the current token afterwards. */
  datatype Parsed<T> = Parsed(out: T, pos: nat)

  /** What parse_program returns: the program, every recorded error, or the
      abort of a panicking `.unwrap()`. */
  datatype ProgramOutcome =
    | Accepted(program: Program)
    | Rejected(errors: seq<ParseError>)
    | Aborted(cause: ParseError)

  /** The token at index i; the lexer keeps returning EOF past the end. */
  function At(t: seq<TokenKind>, i: nat): (k: TokenKind)
    ensures k != EOF ==> i < |t|
  {
    if i < |t| then t[i] else EOF
  }

  /** next_token: the peek token becomes the current one. */
  function Advance(t: seq<TokenKind>, pos: nat): (p: nat)
    requires pos <= |t|
    ensures p <= |t|
    ensures At(t, p) == At(t, pos + 1) && At(t, p + 1) == At(t, pos + 2)
    ensures pos < |t| ==> p == pos + 1
  {
    if pos < |t| then pos + 1 else pos
  }

  /** expect_peek: always advances one token, then checks the new current one. */
  function ExpectPeek(t: seq<TokenKind>, pos: nat, k: TokenKind): (r: Parsed<PResult<()>>)
    requires pos <= |t|
    ensures r.pos == Advance(t, pos)
    ensures r.out.Ok? <==> At(t, r.pos) == k
    ensures !r.out.Ok? ==> r.out == Err(ExpectedToken(k, At(t, r.pos)))
  {
    var p := Advance(t, pos);
    if At(t, p) == k then Parsed(Ok(()), p) else Parsed(Err(ExpectedToken(k, At(t, p))), p)
  }

  /** The optional trailing `;` of every statement form. */
  function SkipSemicolon(t: seq<TokenKind>, pos: nat): (p: nat)
    requires pos <= |t|
    ensures p <= |t|
    ensures p == (if At(t, pos + 1) == SEMICOLON then pos + 1 else pos)
  {
    if At(t, pos + 1) == SEMICOLON then Advance(t, pos) else pos
  }

  /** parse_program, from the loop's current state. */
  function ProgramLoop(t: seq<TokenKind>, pos: nat, stmts: seq<Statement>, errors: seq<ParseError>): ProgramOutcome
    requires pos <= |t|
    decreases |t| - pos
  {
    if At(t, pos) == EOF then
      if errors == [] then Accepted(Program(stmts)) else Rejected(errors)
    else
      var s := ParseStatement(t, pos);
      match s.out
      case Ok(st) => ProgramLoop(t, Advance(t, s.pos), stmts + [st], errors)
      case Err(e) => ProgramLoop(t, Advance(t, s.pos), stmts, errors + [e])
      case Panic(e) => Aborted(e)
  }

  /** Parser::new followed by parse_program. */
  function ParseProgram(t: seq<TokenKind>): ProgramOutcome
  {
    ProgramLoop(t, 0, [], [])
  }

  function ParseStatement(t: seq<TokenKind>, pos: nat): (r: Parsed<PResult<Statement>>)
    requires pos <= |t|
    ensures pos <= r.pos <= |t|
    decreases |t| - pos, 5
  {
    match At(t, pos)
    case LET => ParseLetStatement(t, pos)
    case RETURN => ParseReturnStatement(t, pos)
    case _ => ParseExpressionStatement(t, pos)
  }

  function ParseLetStatement(t: seq<TokenKind>, pos: nat): (r: Parsed<PResult<Statement>>)
    requires pos <= |t|
    ensures pos <= r.pos <= |t|
    decreases |t| - pos, 4
  {
    var p := Advance(t, pos);
    match At(t, p)
    case IDENTIFIER(name) =>
      var a := ExpectPeek(t, p, ASSIGN);
      if !a.out.Ok? then Parsed(a.out.Propagate(), a.pos)
      else
        var v := ParseExpression(t, Advance(t, a.pos), LOWEST);
        if !v.out.Ok? then Parsed(v.out.Propagate(), v.pos)
        else Parsed(Ok(Let(name, v.out.value)), SkipSemicolon(t, v.pos))
    case _ => Parsed(Err(NotAnIdentifier), p)
  }

  function ParseReturnStatement(t: seq<TokenKind>, pos: nat): (r: Parsed<PResult<Statement>>)
    requires pos <= |t|
    ensures pos <= r.pos <= |t|
    decreases |t| - pos, 4
  {
    var v := ParseExpression(t, Advance(t, pos), LOWEST);
    if !v.out.Ok? then Parsed(v.out.Propagate(), v.pos)
    else Parsed(Ok(Return(v.out.value)), SkipSemicolon(t, v.pos))
  }

  function ParseExpressionStatement(t: seq<TokenKind>, pos: nat): (r: Parsed<PResult<Statement>>)
    requires pos <= |t|
    ensures pos <= r.pos <= |t|
    decreases |t| - pos, 4
  {
    var v := ParseExpression(t, pos, LOWEST);
    if !v.out.Ok? then Parsed(v.out.Propagate(), v.pos)
    else Parsed(Ok(ExprStmt(v.out.value)), SkipSemicolon(t, v.pos))
  }

  /** parse_expression: a prefix form, then the precedence-climbing loop. */
  function ParseExpression(t: seq<TokenKind>, pos: nat, prec: Precedence): (r: Parsed<PResult<Expression>>)
    requires pos <= |t|
    ensures pos <= r.pos <= |t|
    decreases |t| - pos, 3
  {
    var left := ParsePrefix(t, pos);
    if !left.out.Ok? then left
    else ExpressionLoop(t, left.pos, prec, left.out.value)
  }

  /** The `while` of parse_expression: fold operators while the lookahead is
      not `;` and binds tighter than `prec`. */
  function ExpressionLoop(t: seq<TokenKind>, pos: nat, prec: Precedence, left: Expression): (r: Parsed<PResult<Expression>>)
    requires pos <= |t|
    ensures pos <= r.pos <= |t|
    decreases |t| - pos, 2
  {
    var peek := At(t, pos + 1);
    if peek != SEMICOLON && Below(prec, PrecedenceOf(peek)) then
      var step := ParseInfix(t, pos, left);
      match step.out
      case None => Parsed(Ok(left), step.pos)
      case Some(res) =>
        if res.Ok? then ExpressionLoop(t, step.pos, prec, res.value) else Parsed(res, step.pos)
    else Parsed(Ok(left), pos)
  }

  /** parse_infix_expression: None when the peek token is no infix form. The
      right operand is unwrapped, so its failure aborts the parse. */
  function ParseInfix(t: seq<TokenKind>, pos: nat, left: Expression): (r: Parsed<Option<PResult<Expression>>>)
    requires pos <= |t|
    ensures pos <= r.pos <= |t|
    ensures r.out.None? <==> r.pos == pos
    ensures r.out.None? <==> !IsBinaryOperator(At(t, pos + 1)) && At(t, pos + 1) != LPAREN
    decreases |t| - pos, 1
  {
    var peek := At(t, pos + 1);
    if IsBinaryOperator(peek) then
      var p := Advance(t, pos);
      var op := At(t, p);
      var right := ParseExpression(t, Advance(t, p), PrecedenceOf(op));
      if right.out.Ok? then Parsed(Some(Ok(Infix(op, left, right.out.value))), right.pos)
      else Parsed(Some(right.out.Unwrap()), right.pos)
    else if peek == LPAREN then
      var call := ParseFnCall(t, Advance(t, pos), left);
      Parsed(Some(call.out), call.pos)
    else Parsed(None, pos)
  }

  /** parse_prefix_expression: dispatch on the current token. */
  function ParsePrefix(t: seq<TokenKind>, pos: nat): (r: Parsed<PResult<Expression>>)
    requires pos <= |t|
    ensures pos <= r.pos <= |t|
    decreases |t| - pos, 1
  {
    match At(t, pos)
    case IDENTIFIER(id) => Parsed(Ok(Identifier(id)), pos)
    case INT(i) => Parsed(Ok(Lit(Integer(i))), pos)
    case STRING(s) => Parsed(Ok(Lit(Str(s))), pos)
    case TRUE => Parsed(Ok(Lit(Boolean(true))), pos)
    case FALSE => Parsed(Ok(Lit(Boolean(false))), pos)
    case BANG => ParsePrefixOperator(t, pos)
    case MINUS => ParsePrefixOperator(t, pos)
    case LPAREN => ParseGroup(t, pos)
    case LBRACKET =>
      var elements := ParseExpressionList(t, pos, RBRACKET);
      if elements.out.Ok? then Parsed(Ok(Lit(Array(elements.out.value))), elements.pos)
      else Parsed(elements.out.Propagate(), elements.pos)
    case IF => ParseIf(t, pos)
    case FUNCTION => ParseFn(t, pos)
    case _ => Parsed(Err(NoPrefixFunction(At(t, pos))), pos)
  }

  /** `-` or `!`: the operand is parsed at PREFIX precedence. */
  function ParsePrefixOperator(t: seq<TokenKind>, pos: nat): (r: Parsed<PResult<Expression>>)
    requires pos < |t|
    ensures pos <= r.pos <= |t|
    decreases |t| - pos, 0
  {
    var op := At(t, pos);
    var e := ParseExpression(t, Advance(t, pos), PREFIX);
    if e.out.Ok? then Parsed(Ok(Prefix(op, e.out.value)), e.pos)
    else Parsed(e.out.Propagate(), e.pos)
  }

  /** `( e )`: the inner expression restarts at LOWEST. Even when it fails,
      `)` is still expected, and an error there wins over the inner one. */
  function ParseGroup(t: seq<TokenKind>, pos: nat): (r: Parsed<PResult<Expression>>)
    requires pos < |t|
    ensures pos <= r.pos <= |t|
    decreases |t| - pos, 0
  {
    var e := ParseExpression(t, Advance(t, pos), LOWEST);
    if e.out.Panic? then e
    else
      var close := ExpectPeek(t, e.pos, RPAREN);
      if close.out.Ok? then Parsed(e.out, close.pos) else Parsed(close.out.Propagate(), close.pos)
  }

  function ParseIf(t: seq<TokenKind>, pos: nat): (r: Parsed<PResult<Expression>>)
    requires pos <= |t|
    ensures pos <= r.pos <= |t|
    decreases |t| - pos, 0
  {
    var open := ExpectPeek(t, pos, LPAREN);
    if !open.out.Ok? then Parsed(open.out.Propagate(), open.pos)
    else
      var cond := ParseExpression(t, Advance(t, open.pos), LOWEST);
      if !cond.out.Ok? then Parsed(cond.out.Propagate(), cond.pos)
      else
        var close := ExpectPeek(t, cond.pos, RPAREN);
        if !close.out.Ok? then Parsed(close.out.Propagate(), close.pos)
        else
          var brace := ExpectPeek(t, close.pos, LBRACE);
          if !brace.out.Ok? then Parsed(brace.out.Propagate(), brace.pos)
          else
            var cons := ParseBlock(t, brace.pos);
            if !cons.out.Ok? then Parsed(cons.out.Propagate(), cons.pos)
            else
              var alt := ParseAlternative(t, cons.pos);
              if !alt.out.Ok? then Parsed(alt.out.Propagate(), alt.pos)
              else Parsed(Ok(If(cond.out.value, cons.out.value, alt.out.value)), alt.pos)
  }

  /** The optional `else { ... }` of an if-expression. */
  function ParseAlternative(t: seq<TokenKind>, pos: nat): (r: Parsed<PResult<Option<Block>>>)
    requires pos <= |t|
    ensures pos <= r.pos <= |t|
    ensures At(t, pos + 1) != ELSE ==> r == Parsed(Ok(None), pos)
    decreases |t| - pos, 0
  {
    if At(t, pos + 1) == ELSE then
      var brace := ExpectPeek(t, Advance(t, pos), LBRACE);
      if !brace.out.Ok? then Parsed(brace.out.Propagate(), brace.pos)
      else
        var alt := ParseBlock(t, brace.pos);
        if !alt.out.Ok? then Parsed(alt.out.Propagate(), alt.pos)
        else Parsed(Ok(Some(alt.out.value)), alt.pos)
    else Parsed(Ok(None), pos)
  }

  /** parse_block_statement: statements up to `}` or EOF; failing ones are
      dropped, only an abort escapes. */
  function ParseBlock(t: seq<TokenKind>, pos: nat): (r: Parsed<PResult<Block>>)
    requires pos <= |t|
    ensures pos <= r.pos <= |t|
    decreases |t| - pos, 7
  {
    BlockLoop(t, Advance(t, pos), [])
  }

  function BlockLoop(t: seq<TokenKind>, pos: nat, stmts: seq<Statement>): (r: Parsed<PResult<Block>>)
    requires pos <= |t|
    ensures pos <= r.pos <= |t|
    decreases |t| - pos, 6
  {
    if At(t, pos) == RBRACE || At(t, pos) == EOF then Parsed(Ok(Block(stmts)), pos)
    else
      var s := ParseStatement(t, pos);
      if s.out.Panic? then Parsed(s.out.Propagate(), s.pos)
      else BlockLoop(t, Advance(t, s.pos), if s.out.Ok? then stmts + [s.out.value] else stmts)
  }

  function ParseFn(t: seq<TokenKind>, pos: nat): (r: Parsed<PResult<Expression>>)
    requires pos <= |t|
    ensures pos <= r.pos <= |t|
    decreases |t| - pos, 0
  {
    var open := ExpectPeek(t, pos, LPAREN);
    if !open.out.Ok? then Parsed(open.out.Propagate(), open.pos)
    else
      var params := ParseFnParameters(t, open.pos);
      if !params.out.Ok? then Parsed(params.out.Propagate(), params.pos)
      else
        var brace := ExpectPeek(t, params.pos, LBRACE);
        if !brace.out.Ok? then Parsed(brace.out.Propagate(), brace.pos)
        else
          var body := ParseBlock(t, brace.pos);
          if !body.out.Ok? then Parsed(body.out.Propagate(), body.pos)
          else Parsed(Ok(Function(params.out.value, body.out.value)), body.pos)
  }

  /** parse_fn_parameters: `)` directly, or identifiers separated by commas. */
  function ParseFnParameters(t: seq<TokenKind>, pos: nat): (r: Parsed<PResult<seq<string>>>)
    requires pos <= |t|
    ensures pos <= r.pos <= |t|
  {
    if At(t, pos + 1) == RPAREN then Parsed(Ok([]), Advance(t, pos))
    else
      var p := Advance(t, pos);
      match At(t, p)
      case IDENTIFIER(id) => ParametersLoop(t, p, [id])
      case _ => Parsed(Err(ParameterNotIdentifier(At(t, p))), p)
  }

  function ParametersLoop(t: seq<TokenKind>, pos: nat, params: seq<string>): (r: Parsed<PResult<seq<string>>>)
    requires pos <= |t|
    ensures pos <= r.pos <= |t|
    decreases |t| - pos
  {
    if At(t, pos + 1) == COMMA then
      var p := Advance(t, Advance(t, pos));
      match At(t, p)
      case IDENTIFIER(id) => ParametersLoop(t, p, params + [id])
      case _ => Parsed(Err(ParameterNotIdentifier(At(t, p))), p)
    else
      var close := ExpectPeek(t, pos, RPAREN);
      if close.out.Ok? then Parsed(Ok(params), close.pos) else Parsed(close.out.Propagate(), close.pos)
  }

  function ParseFnCall(t: seq<TokenKind>, pos: nat, callee: Expression): (r: Parsed<PResult<Expression>>)
    requires pos < |t|
    ensures pos <= r.pos <= |t|
    decreases |t| - pos, 1
  {
    var args := ParseExpressionList(t, pos, RPAREN);
    if args.out.Ok? then Parsed(Ok(Call(callee, args.out.value)), args.pos)
    else Parsed(args.out.Propagate(), args.pos)
  }

  /** parse_expression_list: the current token is the opening delimiter. */
  function ParseExpressionList(t: seq<TokenKind>, pos: nat, end: TokenKind): (r: Parsed<PResult<seq<Expression>>>)
    requires pos < |t|
    ensures pos <= r.pos <= |t|
    decreases |t| - pos, 0
  {
    if At(t, pos + 1) == end then Parsed(Ok([]), Advance(t, pos))
    else
      var first := ParseExpression(t, Advance(t, pos), LOWEST);
      if !first.out.Ok? then Parsed(first.out.Propagate(), first.pos)
      else ExpressionListLoop(t, first.pos, end, [first.out.value])
  }

  function ExpressionListLoop(t: seq<TokenKind>, pos: nat, end: TokenKind, items: seq<Expression>): (r: Parsed<PResult<seq<Expression>>>)
    requires pos <= |t|
    ensures pos <= r.pos <= |t|
    decreases |t| - pos, 0
  {
    if At(t, pos + 1) == COMMA then
      var next := ParseExpression(t, Advance(t, Advance(t, pos)), LOWEST);
      if !next.out.Ok? then Parsed(next.out.Propagate(), next.pos)
      else ExpressionListLoop(t, next.pos, end, items + [next.out.value])
    else
      var close := ExpectPeek(t, pos, end);
      if close.out.Ok? then Parsed(Ok(items), close.pos) else Parsed(close.out.Propagate(), close.pos)
  }
}
