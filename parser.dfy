/** The Parser struct of parser/lib.rs: a two-token window over the lexer's
    output plus the list of recorded errors. Every routine advances that
    state in place and is proved to agree with its counterpart in ParserSpec. */
module Parser {
  import opened Results
  import opened Tokens
  import opened Precedences
  import opened Ast
  import opened ParserSpec
  import S = ParserSpec

  class Parser {
    /** The lexer's output; reading past its end yields EOF. */
    const tokens: seq<TokenKind>
    /** Index in `tokens` of the current token. */
    var pos: nat
    var currentToken: TokenKind
    var peekToken: TokenKind
    var errors: seq<ParseError>

    ghost predicate Valid()
      reads this
    {
      pos <= |tokens| && currentToken == At(tokens, pos) && peekToken == At(tokens, pos + 1)
    }

    /** Parser::new: reads the first two tokens. */
    constructor (tokens: seq<TokenKind>)
      ensures Valid() && this.tokens == tokens && pos == 0 && errors == []
    {
      this.tokens := tokens;
      pos := 0;
      currentToken := At(tokens, 0);
      peekToken := At(tokens, 1);
      errors := [];
    }

    method NextToken()
      requires Valid()
      modifies this
      ensures Valid() && errors == old(errors)
      ensures pos == Advance(tokens, old(pos)) && currentToken == old(peekToken)
    {
      currentToken := peekToken;
      pos := Advance(tokens, pos);
      peekToken := At(tokens, pos + 1);
    }

    method ExpectPeek(k: TokenKind) returns (r: PResult<()>)
      requires Valid()
      modifies this
      ensures Valid() && errors == old(errors)
      ensures Parsed(r, pos) == S.ExpectPeek(tokens, old(pos), k)
    {
      NextToken();
      if currentToken == k {
        r := Ok(());
      } else {
        r := Err(ExpectedToken(k, currentToken));
      }
    }

    /** parse_program: records the error of each failing statement and goes on. */
    method ParseProgram() returns (r: ProgramOutcome)
      requires Valid()
      modifies this
      ensures Valid()
      ensures r == S.ProgramLoop(tokens, old(pos), [], old(errors))
      ensures !r.Aborted? ==> errors == (if r.Rejected? then r.errors else [])
    {
      var statements: seq<Statement> := [];
      while currentToken != EOF
        invariant Valid() && old(pos) <= pos
        invariant S.ProgramLoop(tokens, pos, statements, errors) == S.ProgramLoop(tokens, old(pos), [], old(errors))
        decreases |tokens| - pos
      {
        var s := ParseStatement();
        match s {
          case Ok(st) => statements := statements + [st];
          case Err(e) => errors := errors + [e];
          case Panic(e) => return Aborted(e);
        }
        NextToken();
      }
      if errors == [] {
        r := Accepted(Program(statements));
      } else {
        r := Rejected(errors);
      }
    }

    method ParseStatement() returns (r: PResult<Statement>)
      requires Valid()
      modifies this
      ensures Valid() && errors == old(errors)
      ensures Parsed(r, pos) == S.ParseStatement(tokens, old(pos))
      decreases |tokens| - pos, 5
    {
      match currentToken
      case LET => r := ParseLetStatement();
      case RETURN => r := ParseReturnStatement();
      case _ => r := ParseExpressionStatement();
    }

    method ParseLetStatement() returns (r: PResult<Statement>)
      requires Valid()
      modifies this
      ensures Valid() && errors == old(errors)
      ensures Parsed(r, pos) == S.ParseLetStatement(tokens, old(pos))
      decreases |tokens| - pos, 4
    {
      NextToken();
      match currentToken
      case IDENTIFIER(name) =>
        var a := ExpectPeek(ASSIGN);
        if !a.Ok? {
          return a.Propagate();
        }
        NextToken();
        var v := ParseExpression(LOWEST);
        if !v.Ok? {
          return v.Propagate();
        }
        if peekToken == SEMICOLON {
          NextToken();
        }
        r := Ok(Let(name, v.value));
      case _ =>
        r := Err(NotAnIdentifier);
    }

    method ParseReturnStatement() returns (r: PResult<Statement>)
      requires Valid()
      modifies this
      ensures Valid() && errors == old(errors)
      ensures Parsed(r, pos) == S.ParseReturnStatement(tokens, old(pos))
      decreases |tokens| - pos, 4
    {
      NextToken();
      var v := ParseExpression(LOWEST);
      if !v.Ok? {
        return v.Propagate();
      }
      if peekToken == SEMICOLON {
        NextToken();
      }
      r := Ok(Return(v.value));
    }

    method ParseExpressionStatement() returns (r: PResult<Statement>)
      requires Valid()
      modifies this
      ensures Valid() && errors == old(errors)
      ensures Parsed(r, pos) == S.ParseExpressionStatement(tokens, old(pos))
      decreases |tokens| - pos, 4
    {
      var v := ParseExpression(LOWEST);
      if !v.Ok? {
        return v.Propagate();
      }
      if peekToken == SEMICOLON {
        NextToken();
      }
      r := Ok(ExprStmt(v.value));
    }

    method ParseExpression(prec: Precedence) returns (r: PResult<Expression>)
      requires Valid()
      modifies this
      ensures Valid() && errors == old(errors)
      ensures Parsed(r, pos) == S.ParseExpression(tokens, old(pos), prec)
      decreases |tokens| - pos, 3
    {
      var prefix := ParsePrefix();
      if !prefix.Ok? {
        return prefix;
      }
      var left := prefix.value;
      while peekToken != SEMICOLON && Below(prec, PrecedenceOf(peekToken))
        invariant Valid() && errors == old(errors) && old(pos) <= pos
        invariant S.ExpressionLoop(tokens, pos, prec, left) == S.ParseExpression(tokens, old(pos), prec)
        decreases |tokens| - pos
      {
        var step := ParseInfix(left);
        match step {
          case None => return Ok(left);
          case Some(infix) =>
            if !infix.Ok? {
              return infix;
            }
            left := infix.value;
        }
      }
      r := Ok(left);
    }

    method ParsePrefix() returns (r: PResult<Expression>)
      requires Valid()
      modifies this
      ensures Valid() && errors == old(errors)
      ensures Parsed(r, pos) == S.ParsePrefix(tokens, old(pos))
      decreases |tokens| - pos, 1
    {
      match currentToken
      case IDENTIFIER(id) => r := Ok(Identifier(id));
      case INT(i) => r := Ok(Lit(Integer(i)));
      case STRING(s) => r := Ok(Lit(Str(s)));
      case TRUE => r := Ok(Lit(Boolean(true)));
      case FALSE => r := Ok(Lit(Boolean(false)));
      case BANG => r := ParsePrefixOperator();
      case MINUS => r := ParsePrefixOperator();
      case LPAREN => r := ParseGroup();
      case LBRACKET =>
        var elements := ParseExpressionList(RBRACKET);
        if elements.Ok? {
          r := Ok(Lit(Array(elements.value)));
        } else {
          r := elements.Propagate();
        }
      case IF => r := ParseIf();
      case FUNCTION => r := ParseFn();
      case _ => r := Err(NoPrefixFunction(currentToken));
    }

    method ParsePrefixOperator() returns (r: PResult<Expression>)
      requires Valid() && pos < |tokens|
      modifies this
      ensures Valid() && errors == old(errors)
      ensures Parsed(r, pos) == S.ParsePrefixOperator(tokens, old(pos))
      decreases |tokens| - pos, 0
    {
      var op := currentToken;
      NextToken();
      var e := ParseExpression(PREFIX);
      if e.Ok? {
        r := Ok(Prefix(op, e.value));
      } else {
        r := e.Propagate();
      }
    }

    method ParseGroup() returns (r: PResult<Expression>)
      requires Valid() && pos < |tokens|
      modifies this
      ensures Valid() && errors == old(errors)
      ensures Parsed(r, pos) == S.ParseGroup(tokens, old(pos))
      decreases |tokens| - pos, 0
    {
      NextToken();
      var e := ParseExpression(LOWEST);
      if e.Panic? {
        return e;
      }
      var close := ExpectPeek(RPAREN);
      if !close.Ok? {
        return close.Propagate();
      }
      r := e;
    }

    method ParseInfix(left: Expression) returns (r: Option<PResult<Expression>>)
      requires Valid()
      modifies this
      ensures Valid() && errors == old(errors)
      ensures Parsed(r, pos) == S.ParseInfix(tokens, old(pos), left)
      decreases |tokens| - pos, 1
    {
      if IsBinaryOperator(peekToken) {
        NextToken();
        var op := currentToken;
        var prec := PrecedenceOf(currentToken);
        NextToken();
        var right := ParseExpression(prec);
        if right.Ok? {
          r := Some(Ok(Infix(op, left, right.value)));
        } else {
          r := Some(right.Unwrap());
        }
      } else if peekToken == LPAREN {
        NextToken();
        var call := ParseFnCall(left);
        r := Some(call);
      } else {
        r := None;
      }
    }

    method ParseIf() returns (r: PResult<Expression>)
      requires Valid()
      modifies this
      ensures Valid() && errors == old(errors)
      ensures Parsed(r, pos) == S.ParseIf(tokens, old(pos))
      decreases |tokens| - pos, 0
    {
      var open := ExpectPeek(LPAREN);
      if !open.Ok? {
        return open.Propagate();
      }
      NextToken();
      var cond := ParseExpression(LOWEST);
      if !cond.Ok? {
        return cond.Propagate();
      }
      var close := ExpectPeek(RPAREN);
      if !close.Ok? {
        return close.Propagate();
      }
      var brace := ExpectPeek(LBRACE);
      if !brace.Ok? {
        return brace.Propagate();
      }
      var cons := ParseBlock();
      if !cons.Ok? {
        return cons.Propagate();
      }
      var alt := ParseAlternative();
      if !alt.Ok? {
        return alt.Propagate();
      }
      r := Ok(If(cond.value, cons.value, alt.value));
    }

    method ParseAlternative() returns (r: PResult<Option<Block>>)
      requires Valid()
      modifies this
      ensures Valid() && errors == old(errors)
      ensures Parsed(r, pos) == S.ParseAlternative(tokens, old(pos))
      decreases |tokens| - pos, 0
    {
      if peekToken == ELSE {
        NextToken();
        var brace := ExpectPeek(LBRACE);
        if !brace.Ok? {
          return brace.Propagate();
        }
        var alt := ParseBlock();
        if !alt.Ok? {
          return alt.Propagate();
        }
        r := Ok(Some(alt.value));
      } else {
        r := Ok(None);
      }
    }

    method ParseBlock() returns (r: PResult<Block>)
      requires Valid()
      modifies this
      ensures Valid() && errors == old(errors)
      ensures Parsed(r, pos) == S.ParseBlock(tokens, old(pos))
      decreases |tokens| - pos, 7
    {
      NextToken();
      var statements: seq<Statement> := [];
      while currentToken != RBRACE && currentToken != EOF
        invariant Valid() && errors == old(errors) && old(pos) <= pos
        invariant S.BlockLoop(tokens, pos, statements) == S.ParseBlock(tokens, old(pos))
        decreases |tokens| - pos
      {
        var s := ParseStatement();
        if s.Panic? {
          return s.Propagate();
        }
        if s.Ok? {
          statements := statements + [s.value];
        }
        NextToken();
      }
      r := Ok(Block(statements));
    }

    method ParseFn() returns (r: PResult<Expression>)
      requires Valid()
      modifies this
      ensures Valid() && errors == old(errors)
      ensures Parsed(r, pos) == S.ParseFn(tokens, old(pos))
      decreases |tokens| - pos, 0
    {
      var open := ExpectPeek(LPAREN);
      if !open.Ok? {
        return open.Propagate();
      }
      var params := ParseFnParameters();
      if !params.Ok? {
        return params.Propagate();
      }
      var brace := ExpectPeek(LBRACE);
      if !brace.Ok? {
        return brace.Propagate();
      }
      var body := ParseBlock();
      if !body.Ok? {
        return body.Propagate();
      }
      r := Ok(Function(params.value, body.value));
    }

    method ParseFnParameters() returns (r: PResult<seq<string>>)
      requires Valid()
      modifies this
      ensures Valid() && errors == old(errors)
      ensures Parsed(r, pos) == S.ParseFnParameters(tokens, old(pos))
    {
      if peekToken == RPAREN {
        NextToken();
        return Ok([]);
      }
      NextToken();
      var params: seq<string>;
      match currentToken {
        case IDENTIFIER(id) => params := [id];
        case _ => return Err(ParameterNotIdentifier(currentToken));
      }
      while peekToken == COMMA
        invariant Valid() && errors == old(errors)
        invariant S.ParametersLoop(tokens, pos, params) == S.ParseFnParameters(tokens, old(pos))
        decreases |tokens| - pos
      {
        NextToken();
        NextToken();
        match currentToken {
          case IDENTIFIER(id) => params := params + [id];
          case _ => return Err(ParameterNotIdentifier(currentToken));
        }
      }
      var close := ExpectPeek(RPAREN);
      if !close.Ok? {
        return close.Propagate();
      }
      r := Ok(params);
    }

    method ParseFnCall(callee: Expression) returns (r: PResult<Expression>)
      requires Valid() && pos < |tokens|
      modifies this
      ensures Valid() && errors == old(errors)
      ensures Parsed(r, pos) == S.ParseFnCall(tokens, old(pos), callee)
      decreases |tokens| - pos, 1
    {
      var args := ParseExpressionList(RPAREN);
      if args.Ok? {
        r := Ok(Call(callee, args.value));
      } else {
        r := args.Propagate();
      }
    }

    method ParseExpressionList(end: TokenKind) returns (r: PResult<seq<Expression>>)
      requires Valid() && pos < |tokens|
      modifies this
      ensures Valid() && errors == old(errors)
      ensures Parsed(r, pos) == S.ParseExpressionList(tokens, old(pos), end)
      decreases |tokens| - pos, 0
    {
      if peekToken == end {
        NextToken();
        return Ok([]);
      }
      NextToken();
      var first := ParseExpression(LOWEST);
      if !first.Ok? {
        return first.Propagate();
      }
      var items := [first.value];
      while peekToken == COMMA
        invariant Valid() && errors == old(errors) && old(pos) < pos
        invariant S.ExpressionListLoop(tokens, pos, end, items) == S.ParseExpressionList(tokens, old(pos), end)
        decreases |tokens| - pos
      {
        NextToken();
        NextToken();
        var next := ParseExpression(LOWEST);
        if !next.Ok? {
          return next.Propagate();
        }
        items := items + [next.value];
      }
      var close := ExpectPeek(end);
      if !close.Ok? {
        return close.Propagate();
      }
      r := Ok(items);
    }
  }

  /** `parse`: a fresh parser over the token sequence, then parse_program. */
  method Parse(tokens: seq<TokenKind>) returns (r: ProgramOutcome)
    ensures r == S.ParseProgram(tokens)
  {
    var p := new Parser(tokens);
    r := p.ParseProgram();
  }
}
